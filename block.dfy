/** The table-block decoder (`ParseBlock`).  A block is a run of entries, then
    a restart array the reader skips, then a trailer.  The reader takes the
    restart count from the single last byte and drops `1 + 4 * count` bytes from
    the end.  Each entry is three varints (bytes shared with the previous key,
    inline key length, value length), the inline key and the value.  An inline
    key of 8 or more bytes ends in a status byte and a 7-byte little-endian
    sequence number; the bytes before them are the key's unshared part. */
module BlockDecoder {
  import opened Wrappers
  import opened Bytes
  import opened Records
  import Varint

  /** The sequence number `0xffffffffffffff` that ends a block once its entry
      is stored. */
  const Sentinel: nat := 0xff_ffff_ffff_ffff

  /** Why the entry loop stopped.  Every stop is soft: the entries stored so far
      are the block's result. */
  datatype BlockStop =
    | NoTrailer     // an empty block: IndexError on the last byte
    | EndOfData     // a varint cut short: EOFError, how a block without a sentinel ends
    | OversizedRead // a key or value length `read` cannot take: OverflowError
    | TypeMismatch  // a shared prefix before any keyed entry: the initial key is a `str`
    | SentinelSeen  // an entry numbered `Sentinel`, stored and then the loop stops
    | EmptyEntry    // an entry that declares an empty key and an empty value

  datatype BlockResult = BlockResult(entries: Table, stop: BlockStop)

  /** The one failure that escapes `ParseBlock`: Snappy raising on a block marked
      compressed, which happens before the `try`. */
  datatype BlockError = DecompressionFailed

  /** `blockBytes[: -(1 + 4 * blockBytes[-1])]`: everything before the restart
      array and the trailer, or nothing when those claim the whole block. */
  function EntriesRegion(block: seq<Byte>): (r: seq<Byte>)
    requires |block| > 0
    ensures |r| < |block| && r == block[..|r|]
  {
    var trailer := 1 + 4 * (block[|block| - 1] as int);
    if trailer < |block| then block[..|block| - trailer] else []
  }

  /** One entry as read: the shared length, the declared key and value lengths,
      and the key and value bytes `read` returned, which are short when the
      region ends early. */
  datatype RawEntry = RawEntry(shared: nat, keyLen: nat, valueLen: nat, inlineKey: seq<Byte>, value: seq<Byte>)

  /** The entry at `pos` and the position after it, or the exception that ends
      the loop there: `EndOfData` when one of its three varints is cut short,
      `OversizedRead` when `read` cannot take a declared length. */
  function DecodeEntry(s: seq<Byte>, pos: nat): (r: Result<(RawEntry, nat), BlockStop>)
    requires pos <= |s|
    ensures r.Ok? ==> pos + 3 <= r.value.1 <= |s|
    ensures r.Ok? ==> |r.value.0.inlineKey| <= r.value.0.keyLen && |r.value.0.value| <= r.value.0.valueLen
    ensures r.Err? ==> r.error == EndOfData || r.error == OversizedRead
  {
    match Varint.Decode(s, pos)
    case None => Err(EndOfData)
    case Some((shared, p1)) =>
      match Varint.Decode(s, p1)
      case None => Err(EndOfData)
      case Some((keyLen, p2)) =>
        match Varint.Decode(s, p2)
        case None => Err(EndOfData)
        case Some((valueLen, p3)) =>
          if keyLen >= ReadLimit || valueLen >= ReadLimit then Err(OversizedRead)
          else
            var key := Read(s, p3, keyLen);
            var value := Read(s, p3 + |key|, valueLen);
            Ok((RawEntry(shared, keyLen, valueLen, key, value), p3 + |key| + |value|))
  }

  /** The parts of an inline key of 8 or more bytes: the unshared key bytes, the
      status byte and the sequence number. */
  datatype InternalKey = InternalKey(name: Key, status: Byte, seqNo: nat)

  function SplitKey(inlineKey: seq<Byte>): (k: InternalKey)
    requires |inlineKey| >= 8
    ensures |k.name| == |inlineKey| - 8 && k.seqNo < Pow256(7)
  {
    InternalKey(inlineKey[..|inlineKey| - 8], inlineKey[|inlineKey| - 8], LittleEndian(inlineKey[|inlineKey| - 7..]))
  }

  function JoinKey(k: InternalKey): (s: seq<Byte>)
    ensures |s| == |k.name| + 8
  {
    k.name + [k.status] + LittleEndianBytes(k.seqNo, 7)
  }

  /** Splitting a joined key gives its parts back when the number fits in 7 bytes ... */
  lemma SplitJoin(k: InternalKey)
    requires k.seqNo < Pow256(7)
    ensures SplitKey(JoinKey(k)) == k
  {
    var s := JoinKey(k);
    assert s[..|s| - 8] == k.name;
    assert s[|s| - 7..] == LittleEndianBytes(k.seqNo, 7);
    LittleEndianRoundTrip(k.seqNo, 7);
  }

  /** ... and joining the parts of a split key gives the key back. */
  lemma JoinSplit(s: seq<Byte>)
    requires |s| >= 8
    ensures JoinKey(SplitKey(s)) == s
  {
    LittleEndianBytesRoundTrip(s[|s| - 7..]);
    assert s == s[..|s| - 8] + [s[|s| - 8]] + s[|s| - 7..];
  }

  /** `curKey` after a keyed entry: `curKey[:shared] + name`, or `name` alone when
      nothing is shared.  `None` stands for the TypeError of sharing with the
      initial `''`, which is a `str` and cannot be joined to bytes. */
  function NextKey(cur: Option<Key>, shared: nat, name: Key): (r: Option<Key>)
    ensures r.None? <==> shared != 0 && cur.None?
    ensures r.Some? ==> |name| <= |r.value| && r.value[|r.value| - |name|..] == name
  {
    if shared == 0 then Some(name)
    else if cur.None? then None
    else Some(Slice(cur.value, 0, shared) + name)
  }

  /** The entry loop from `pos` on, with the current key and the entries so far. */
  function BlockFrom(region: seq<Byte>, pos: nat, cur: Option<Key>, kv: Table): BlockResult
    requires pos <= |region|
    decreases |region| - pos
  {
    match DecodeEntry(region, pos)
    case Err(stop) => BlockResult(kv, stop)
    case Ok((e, next)) =>
      if |e.inlineKey| >= 8 then
        var ik := SplitKey(e.inlineKey);
        match NextKey(cur, e.shared, ik.name)
        case None => BlockResult(kv, TypeMismatch)
        case Some(key) =>
          var kv' := kv.Put(key, Entry(ik.status, ik.seqNo, e.value));
          // A key of 8 or more bytes declares a non-zero length, so the empty
          // entry test below can only end an entry without a key.
          if ik.seqNo == Sentinel then BlockResult(kv', SentinelSeen)
          else BlockFrom(region, next, Some(key), kv')
      else if e.keyLen == 0 && e.valueLen == 0 then BlockResult(kv, EmptyEntry)
      else BlockFrom(region, next, cur, kv)
  }

  /** The entries of an uncompressed block. */
  function BlockEntries(block: seq<Byte>): (r: BlockResult)
    ensures r.entries.Valid()
  {
    if |block| == 0 then BlockResult(Empty(), NoTrailer)
    else
      BlockFromValid(EntriesRegion(block), 0, None, Empty());
      BlockFrom(EntriesRegion(block), 0, None, Empty())
  }

  /** `ParseBlock(blockBytes, compressed, _)`, with Snappy passed in as
      `uncompress` (`None` when it raises). */
  function DecodeBlock(raw: seq<Byte>, compressed: Byte, uncompress: seq<Byte> -> Option<seq<Byte>>)
    : (r: Result<BlockResult, BlockError>)
    ensures r.Ok? ==> r.value.entries.Valid()
  {
    var block := if compressed == 1 then uncompress(raw) else Some(raw);
    match block
    case None => Err(DecompressionFailed)
    case Some(b) => Ok(BlockEntries(b))
  }

  lemma {:induction false} BlockFromValid(region: seq<Byte>, pos: nat, cur: Option<Key>, kv: Table)
    requires pos <= |region| && kv.Valid()
    ensures BlockFrom(region, pos, cur, kv).entries.Valid()
    decreases |region| - pos
  {
    match DecodeEntry(region, pos)
    case Err(_) =>
    case Ok((e, next)) =>
      if |e.inlineKey| >= 8 {
        var ik := SplitKey(e.inlineKey);
        var key := NextKey(cur, e.shared, ik.name);
        if key.Some? {
          PutValid(kv, key.value, Entry(ik.status, ik.seqNo, e.value));
          if ik.seqNo != Sentinel {
            BlockFromValid(region, next, key, kv.Put(key.value, Entry(ik.status, ik.seqNo, e.value)));
          }
        }
      } else if e.keyLen != 0 || e.valueLen != 0 {
        BlockFromValid(region, next, cur, kv);
      }
  }

  /** Whatever ends the loop, the entries stored before it are kept: the keys
      read so far stay, in their order, at the front of the result. */
  lemma {:induction false} BlockFromKeeps(region: seq<Byte>, pos: nat, cur: Option<Key>, kv: Table)
    requires pos <= |region|
    ensures kv.keys <= BlockFrom(region, pos, cur, kv).entries.keys
    ensures kv.vals.Keys <= BlockFrom(region, pos, cur, kv).entries.vals.Keys
    decreases |region| - pos
  {
    match DecodeEntry(region, pos)
    case Err(_) =>
    case Ok((e, next)) =>
      if |e.inlineKey| >= 8 {
        var ik := SplitKey(e.inlineKey);
        var key := NextKey(cur, e.shared, ik.name);
        if key.Some? {
          var kv' := kv.Put(key.value, Entry(ik.status, ik.seqNo, e.value));
          PutKeeps(kv, key.value, Entry(ik.status, ik.seqNo, e.value));
          if ik.seqNo != Sentinel {
            BlockFromKeeps(region, next, key, kv');
          }
        }
      } else if e.keyLen != 0 || e.valueLen != 0 {
        BlockFromKeeps(region, next, cur, kv);
      }
  }

  /** `ParseBlock`: uncompresses when the type byte is 1, then runs the entry loop
      over the region before the restart array.  The outcome is the entries
      stored and the reason the loop stopped. */
  method ParseBlock(blockBytes: seq<Byte>, compressed: Byte, uncompress: seq<Byte> -> Option<seq<Byte>>)
    returns (r: Result<BlockResult, BlockError>)
    ensures r == DecodeBlock(blockBytes, compressed, uncompress)
    ensures r.Ok? ==> r.value.entries.Valid()
  {
    var block := blockBytes;
    if compressed == 1 {
      var u := uncompress(blockBytes);
      if u.None? {
        return Err(DecompressionFailed);
      }
      block := u.value;
    }
    if |block| == 0 {
      return Ok(BlockResult(Empty(), NoTrailer));
    }
    var region := EntriesRegion(block);
    var pos: nat := 0;
    var curKey: Option<Key> := None;
    var kvPair: Table := Empty();
    var bContinue := true;
    var stop := EndOfData;
    while bContinue
      invariant pos <= |region| && kvPair.Valid()
      invariant bContinue ==> BlockFrom(region, pos, curKey, kvPair) == BlockEntries(block)
      invariant !bContinue ==> BlockResult(kvPair, stop) == BlockEntries(block)
      decreases |region| - pos
    {
      var d := DecodeEntry(region, pos);
      if d.Err? {
        return Ok(BlockResult(kvPair, d.error));
      }
      var (e, next) := d.value;
      if |e.inlineKey| >= 8 {
        var ik := SplitKey(e.inlineKey);
        var key := NextKey(curKey, e.shared, ik.name);
        if key.None? {
          return Ok(BlockResult(kvPair, TypeMismatch));
        }
        PutValid(kvPair, key.value, Entry(ik.status, ik.seqNo, e.value));
        curKey := key;
        kvPair := kvPair.Put(key.value, Entry(ik.status, ik.seqNo, e.value));
        if ik.seqNo == Sentinel {
          bContinue, stop := false, SentinelSeen;
        }
      }
      if e.keyLen == 0 && e.valueLen == 0 {
        bContinue, stop := false, EmptyEntry;
      }
      pos := next;
    }
    return Ok(BlockResult(kvPair, stop));
  }
}

/** What the block decoder promises, stated against an encoder of the same
    entry format: keys prefix-compressed against the previous key, the status
    byte and sequence number appended to the unshared part. */
module BlockFormat {
  import opened Wrappers
  import opened Bytes
  import opened Records
  import Varint
  import opened BlockDecoder

  /** A record a table stores: user key, status, sequence number and value. */
  datatype Record = Record(key: Key, status: Byte, seqNo: nat, value: seq<Byte>)

  /** A record whose inline key and value `read` can take. */
  predicate Fits(r: Record)
  {
    |r.key| + 8 < ReadLimit && |r.value| < ReadLimit
  }

  /** A record the loop reads and moves past: it fits, and its number fits in 7
      bytes and is not the sentinel. */
  predicate Ordinary(r: Record)
  {
    Fits(r) && r.seqNo < Sentinel
  }

  /** The length of the longest common prefix of `a` and `b`. */
  function CommonPrefix(a: Key, b: Key): (n: nat)
    ensures n <= |a| && n <= |b| && a[..n] == b[..n]
    ensures n < |a| && n < |b| ==> a[n] != b[n]
  {
    if a == [] || b == [] || a[0] != b[0] then 0
    else
      var m := CommonPrefix(a[1..], b[1..]);
      assert a[..m + 1] == [a[0]] + a[1..][..m] && b[..m + 1] == [b[0]] + b[1..][..m];
      1 + m
  }

  /** How many bytes a key shares with the key before it; nothing is shared with
      the first key of a block. */
  function SharedWith(prev: Option<Key>, key: Key): (n: nat)
    ensures n <= |key|
    ensures prev.None? ==> n == 0
    ensures prev.Some? ==> n <= |prev.value| && prev.value[..n] == key[..n]
  {
    if prev.None? then 0 else CommonPrefix(prev.value, key)
  }

  function EncodeEntry(shared: nat, inlineKey: seq<Byte>, value: seq<Byte>): seq<Byte>
  {
    Varint.Encode(shared) + Varint.Encode(|inlineKey|) + Varint.Encode(|value|) + inlineKey + value
  }

  function EncodeRecord(prev: Option<Key>, r: Record): seq<Byte>
  {
    var n := SharedWith(prev, r.key);
    EncodeEntry(n, JoinKey(InternalKey(r.key[n..], r.status, r.seqNo)), r.value)
  }

  function EncodeRecords(prev: Option<Key>, recs: seq<Record>): seq<Byte>
    decreases |recs|
  {
    if recs == [] then [] else EncodeRecord(prev, recs[0]) + EncodeRecords(Some(recs[0].key), recs[1..])
  }

  /** The key the loop holds after `recs`. */
  function LastKey(prev: Option<Key>, recs: seq<Record>): Option<Key>
    decreases |recs|
  {
    if recs == [] then prev else LastKey(Some(recs[0].key), recs[1..])
  }

  /** Storing `recs` in order, each under its user key. */
  function Insert(kv: Table, recs: seq<Record>): Table
    decreases |recs|
  {
    if recs == [] then kv
    else Insert(kv.Put(recs[0].key, Entry(recs[0].status, recs[0].seqNo, recs[0].value)), recs[1..])
  }

  /** A block: entries, a restart array of `n` 4-byte offsets, and `n` as the
      last byte. */
  function EncodeBlock(entries: seq<Byte>, restarts: seq<Byte>, n: Byte): seq<Byte>
    requires |restarts| == 4 * n
  {
    entries + restarts + [n]
  }

  /** The restart array and trailer are dropped, whatever the restart offsets. */
  lemma RegionOfBlock(entries: seq<Byte>, restarts: seq<Byte>, n: Byte)
    requires |restarts| == 4 * n
    ensures EntriesRegion(EncodeBlock(entries, restarts, n)) == entries
  {
    var b := EncodeBlock(entries, restarts, n);
    assert b[|b| - 1] == n;
    assert b[..|entries|] == entries;
  }

  /** Bytes at `pos` followed by `rest` are returned by a `read` of their
      length, and `rest` is left. */
  lemma BytesAt(s: seq<Byte>, pos: nat, x: seq<Byte>, rest: seq<Byte>) returns (next: nat)
    requires |x| < ReadLimit && pos <= |s| && s[pos..] == x + rest
    ensures next == pos + |x| && next <= |s| && s[next..] == rest
    ensures Read(s, pos, |x|) == x
  {
    next := pos + |x|;
    SplitRest(s, pos, x, rest);
  }

  /** How `DecodeEntry` reads three varints and two fields that decode. */
  lemma DecodeEntryOf(s: seq<Byte>, pos: nat, shared: nat, k: seq<Byte>, valueLen: nat, v: seq<Byte>,
                      p1: nat, p2: nat, p3: nat)
    requires pos <= |s| && |k| < ReadLimit && valueLen < ReadLimit
    requires Varint.Decode(s, pos) == Some((shared, p1))
    requires Varint.Decode(s, p1) == Some((|k|, p2))
    requires Varint.Decode(s, p2) == Some((valueLen, p3))
    requires Read(s, p3, |k|) == k && Read(s, p3 + |k|, valueLen) == v
    ensures DecodeEntry(s, pos) == Ok((RawEntry(shared, |k|, valueLen, k, v), p3 + |k| + |v|))
  {
  }

  /** An encoded entry is read back with its lengths, key and value, and the
      next entry starts right after it. */
  lemma EntryRoundTrip(s: seq<Byte>, pos: nat, shared: nat, k: seq<Byte>, v: seq<Byte>, rest: seq<Byte>)
    returns (next: nat)
    requires |k| < ReadLimit && |v| < ReadLimit
    requires pos <= |s| && s[pos..] == EncodeEntry(shared, k, v) + rest
    ensures next == pos + |EncodeEntry(shared, k, v)| && next <= |s| && s[next..] == rest
    ensures DecodeEntry(s, pos) == Ok((RawEntry(shared, |k|, |v|, k, v), next))
  {
    var a, b, c := Varint.Encode(shared), Varint.Encode(|k|), Varint.Encode(|v|);
    assert EncodeEntry(shared, k, v) + rest == a + (b + (c + (k + (v + rest))));
    var p1 := Varint.VarintAt(s, pos, shared, b + (c + (k + (v + rest))));
    var p2 := Varint.VarintAt(s, p1, |k|, c + (k + (v + rest)));
    var p3 := Varint.VarintAt(s, p2, |v|, k + (v + rest));
    var p4 := BytesAt(s, p3, k, v + rest);
    next := BytesAt(s, p4, v, rest);
    DecodeEntryOf(s, pos, shared, k, |v|, v, p1, p2, p3);
  }

  /** `(x + y)` without its last `d` bytes, when those all lie in `y`. */
  lemma DropLast(x: seq<Byte>, y: seq<Byte>, d: nat)
    requires d <= |y|
    ensures (x + y)[..|x + y| - d] == x + y[..|y| - d]
  {
  }

  /** An encoded entry whose last `d` value bytes are missing, at the end of the
      data: the value `read` returns is short, and the entry still decodes. */
  lemma ShortValueRoundTrip(s: seq<Byte>, pos: nat, shared: nat, k: seq<Byte>, v: seq<Byte>, d: nat)
    requires |k| < ReadLimit && |v| < ReadLimit && d <= |v|
    requires pos <= |s| && s[pos..] == EncodeEntry(shared, k, v)[..|EncodeEntry(shared, k, v)| - d]
    ensures DecodeEntry(s, pos) == Ok((RawEntry(shared, |k|, |v|, k, v[..|v| - d]), |s|))
  {
    var a, b, c, w := Varint.Encode(shared), Varint.Encode(|k|), Varint.Encode(|v|), v[..|v| - d];
    assert s[pos..] == a + (b + (c + (k + w))) by {
      DropLast(a + b + c + k, v, d);
      assert (a + b + c + k) + w == a + (b + (c + (k + w)));
    }
    ShortValueAtEnd(s, pos, shared, k, |v|, w);
  }

  /** Three varints, the key, and fewer value bytes than declared, ending the
      data: the entry decodes with the short value. */
  lemma ShortValueAtEnd(s: seq<Byte>, pos: nat, shared: nat, k: seq<Byte>, valueLen: nat, w: seq<Byte>)
    requires |k| < ReadLimit && valueLen < ReadLimit && |w| <= valueLen
    requires pos <= |s|
    requires s[pos..] == Varint.Encode(shared) + (Varint.Encode(|k|) + (Varint.Encode(valueLen) + (k + w)))
    ensures DecodeEntry(s, pos) == Ok((RawEntry(shared, |k|, valueLen, k, w), |s|))
  {
    var p1 := Varint.VarintAt(s, pos, shared, Varint.Encode(|k|) + (Varint.Encode(valueLen) + (k + w)));
    var p2 := Varint.VarintAt(s, p1, |k|, Varint.Encode(valueLen) + (k + w));
    var p3 := Varint.VarintAt(s, p2, valueLen, k + w);
    var p4 := BytesAt(s, p3, k, w);
    assert Read(s, p4, valueLen) == w;
    DecodeEntryOf(s, pos, shared, k, valueLen, w, p1, p2, p3);
  }

  /** The previous key's shared prefix and the unshared bytes make the key again. */
  lemma NextKeyRebuilds(prev: Option<Key>, key: Key)
    ensures NextKey(prev, SharedWith(prev, key), key[SharedWith(prev, key)..]) == Some(key)
  {
    var n := SharedWith(prev, key);
    if n != 0 {
      assert Slice(prev.value, 0, n) == key[..n];
      assert key[..n] + key[n..] == key;
    } else {
      assert key[0..] == key;
    }
  }

  /** One step of the loop over a keyed entry that is not the sentinel. */
  lemma KeyedStep(region: seq<Byte>, pos: nat, cur: Option<Key>, kv: Table, e: RawEntry, next: nat,
                  ik: InternalKey, key: Key)
    requires pos <= |region| && DecodeEntry(region, pos) == Ok((e, next))
    requires |e.inlineKey| >= 8 && SplitKey(e.inlineKey) == ik && ik.seqNo != Sentinel
    requires NextKey(cur, e.shared, ik.name) == Some(key)
    ensures BlockFrom(region, pos, cur, kv) ==
      BlockFrom(region, next, Some(key), kv.Put(key, Entry(ik.status, ik.seqNo, e.value)))
  {
  }

  /** One step of the loop over the sentinel entry. */
  lemma SentinelStep(region: seq<Byte>, pos: nat, cur: Option<Key>, kv: Table, e: RawEntry, next: nat,
                     ik: InternalKey, key: Key)
    requires pos <= |region| && DecodeEntry(region, pos) == Ok((e, next))
    requires |e.inlineKey| >= 8 && SplitKey(e.inlineKey) == ik && ik.seqNo == Sentinel
    requires NextKey(cur, e.shared, ik.name) == Some(key)
    ensures BlockFrom(region, pos, cur, kv) ==
      BlockResult(kv.Put(key, Entry(ik.status, ik.seqNo, e.value)), SentinelSeen)
  {
  }

  /** An encoded record is read back under its full key, and the loop goes on
      with it as the current key. */
  lemma RecordStep(region: seq<Byte>, pos: nat, prev: Option<Key>, kv: Table, r: Record, rest: seq<Byte>)
    returns (next: nat)
    requires Ordinary(r)
    requires pos <= |region| && region[pos..] == EncodeRecord(prev, r) + rest
    ensures next <= |region| && region[next..] == rest
    ensures BlockFrom(region, pos, prev, kv) ==
      BlockFrom(region, next, Some(r.key), kv.Put(r.key, Entry(r.status, r.seqNo, r.value)))
  {
    var n := SharedWith(prev, r.key);
    var ik := InternalKey(r.key[n..], r.status, r.seqNo);
    var k := JoinKey(ik);
    next := EntryRoundTrip(region, pos, n, k, r.value, rest);
    assert Pow256(7) == 0x100_0000_0000_0000;
    SplitJoin(ik);
    NextKeyRebuilds(prev, r.key);
    KeyedStep(region, pos, prev, kv, RawEntry(n, |k|, |r.value|, k, r.value), next, ik, r.key);
  }

  /** An encoded sentinel record is read back under its full key and ends the
      loop. */
  lemma SentinelRecordStep(region: seq<Byte>, pos: nat, prev: Option<Key>, kv: Table, r: Record, rest: seq<Byte>)
    requires Fits(r) && r.seqNo == Sentinel
    requires pos <= |region| && region[pos..] == EncodeRecord(prev, r) + rest
    ensures BlockFrom(region, pos, prev, kv) ==
      BlockResult(kv.Put(r.key, Entry(r.status, Sentinel, r.value)), SentinelSeen)
  {
    var n := SharedWith(prev, r.key);
    var ik := InternalKey(r.key[n..], r.status, r.seqNo);
    var k := JoinKey(ik);
    var next := EntryRoundTrip(region, pos, n, k, r.value, rest);
    assert Pow256(7) == 0x100_0000_0000_0000;
    SplitJoin(ik);
    NextKeyRebuilds(prev, r.key);
    SentinelStep(region, pos, prev, kv, RawEntry(n, |k|, |r.value|, k, r.value), next, ik, r.key);
  }

  /** A run of encoded ordinary records is read back in order; the loop then
      stands right after them with the last record's key. */
  lemma {:induction false} RecordsRun(region: seq<Byte>, pos: nat, prev: Option<Key>, kv: Table,
                                      recs: seq<Record>, rest: seq<Byte>)
    requires forall i | 0 <= i < |recs| :: Ordinary(recs[i])
    requires pos <= |region| && region[pos..] == EncodeRecords(prev, recs) + rest
    ensures |rest| <= |region| && region[|region| - |rest|..] == rest
    ensures BlockFrom(region, pos, prev, kv) ==
      BlockFrom(region, |region| - |rest|, LastKey(prev, recs), Insert(kv, recs))
    decreases |recs|
  {
    if recs == [] {
      assert region[pos..] == rest;
    } else {
      var r := recs[0];
      var more := EncodeRecords(Some(r.key), recs[1..]);
      assert EncodeRecords(prev, recs) + rest == EncodeRecord(prev, r) + (more + rest);
      var next := RecordStep(region, pos, prev, kv, r, more + rest);
      RecordsRun(region, next, Some(r.key), kv.Put(r.key, Entry(r.status, r.seqNo, r.value)), recs[1..], rest);
    }
  }

  /** A block of ordinary records decodes to exactly those records, stored in
      order under their full keys; the loop ends when the entries run out. */
  lemma BlockRoundTrip(recs: seq<Record>, restarts: seq<Byte>, n: Byte)
    requires forall i | 0 <= i < |recs| :: Ordinary(recs[i])
    requires |restarts| == 4 * n
    ensures BlockEntries(EncodeBlock(EncodeRecords(None, recs), restarts, n)) ==
      BlockResult(Insert(Empty(), recs), EndOfData)
  {
    var region := EncodeRecords(None, recs);
    RegionOfBlock(region, restarts, n);
    assert region[0..] == region + [];
    RecordsRun(region, 0, None, Empty(), recs, []);
    CutShortStep(region, |region|, LastKey(None, recs), Insert(Empty(), recs), []);
  }

  /** The sentinel entry is stored and ends the block: nothing after it is read. */
  lemma SentinelEndsBlock(recs: seq<Record>, last: Record, tail: seq<Byte>)
    requires forall i | 0 <= i < |recs| :: Ordinary(recs[i])
    requires Fits(last) && last.seqNo == Sentinel
    ensures BlockFrom(EncodeRecords(None, recs) + EncodeRecord(LastKey(None, recs), last) + tail, 0, None, Empty()) ==
      BlockResult(Insert(Empty(), recs).Put(last.key, Entry(last.status, Sentinel, last.value)), SentinelSeen)
  {
    var prev := LastKey(None, recs);
    var more := EncodeRecord(prev, last) + tail;
    assert EncodeRecords(None, recs) + EncodeRecord(prev, last) + tail == EncodeRecords(None, recs) + more;
    SentinelAfter(EncodeRecords(None, recs) + more, recs, last, tail);
  }

  /** `SentinelEndsBlock` over the region as one value: the records, then the
      sentinel record and whatever follows it. */
  lemma SentinelAfter(region: seq<Byte>, recs: seq<Record>, last: Record, tail: seq<Byte>)
    requires forall i | 0 <= i < |recs| :: Ordinary(recs[i])
    requires Fits(last) && last.seqNo == Sentinel
    requires region == EncodeRecords(None, recs) + (EncodeRecord(LastKey(None, recs), last) + tail)
    ensures BlockFrom(region, 0, None, Empty()) ==
      BlockResult(Insert(Empty(), recs).Put(last.key, Entry(last.status, Sentinel, last.value)), SentinelSeen)
  {
    var more := EncodeRecord(LastKey(None, recs), last) + tail;
    assert region[0..] == EncodeRecords(None, recs) + more;
    RecordsRun(region, 0, None, Empty(), recs, more);
    SentinelRecordStep(region, |region| - |more|, LastKey(None, recs), Insert(Empty(), recs), last, tail);
  }

  /** An entry whose inline key is shorter than 8 bytes, and not empty with an
      empty value, stores nothing and leaves the current key as it was. */
  lemma ShortEntrySkipped(region: seq<Byte>, pos: nat, cur: Option<Key>, kv: Table,
                          shared: nat, k: seq<Byte>, v: seq<Byte>, rest: seq<Byte>)
    requires |k| < 8 && (|k| > 0 || |v| > 0) && |v| < ReadLimit
    requires pos <= |region| && region[pos..] == EncodeEntry(shared, k, v) + rest
    ensures |rest| <= |region|
    ensures BlockFrom(region, pos, cur, kv) == BlockFrom(region, |region| - |rest|, cur, kv)
  {
    var next := EntryRoundTrip(region, pos, shared, k, v, rest);
  }

  /** An entry that declares a key or value length `read` cannot take stops the
      loop with the entries stored so far, whatever follows its three varints. */
  lemma OversizedEntryStops(region: seq<Byte>, pos: nat, cur: Option<Key>, kv: Table,
                            shared: nat, keyLen: nat, valueLen: nat, rest: seq<Byte>)
    requires keyLen >= ReadLimit || valueLen >= ReadLimit
    requires pos <= |region|
    requires region[pos..] == Varint.Encode(shared) + Varint.Encode(keyLen) + Varint.Encode(valueLen) + rest
    ensures BlockFrom(region, pos, cur, kv) == BlockResult(kv, OversizedRead)
  {
    var a, b, c := Varint.Encode(shared), Varint.Encode(keyLen), Varint.Encode(valueLen);
    assert a + b + c + rest == a + (b + (c + rest));
    var p1 := Varint.VarintAt(region, pos, shared, b + (c + rest));
    var p2 := Varint.VarintAt(region, p1, keyLen, c + rest);
    var p3 := Varint.VarintAt(region, p2, valueLen, rest);
  }

  /** An entry that declares an empty key and an empty value ends the block. */
  lemma EmptyEntryEndsBlock(recs: seq<Record>, tail: seq<Byte>)
    requires forall i | 0 <= i < |recs| :: Ordinary(recs[i])
    ensures BlockFrom(EncodeRecords(None, recs) + EncodeEntry(0, [], []) + tail, 0, None, Empty()) ==
      BlockResult(Insert(Empty(), recs), EmptyEntry)
  {
    var region := EncodeRecords(None, recs) + EncodeEntry(0, [], []) + tail;
    var more := EncodeEntry(0, [], []) + tail;
    assert region[0..] == EncodeRecords(None, recs) + more;
    RecordsRun(region, 0, None, Empty(), recs, more);
    var next := EntryRoundTrip(region, |region| - |more|, 0, [], [], tail);
  }

  /** Where every byte left has its high bit set, no varint can be read and the
      loop stops with what it has. */
  lemma CutShortStep(region: seq<Byte>, pos: nat, cur: Option<Key>, kv: Table, tail: seq<Byte>)
    requires pos <= |region| && region[pos..] == tail
    requires forall i | 0 <= i < |tail| :: tail[i] >= 128
    ensures BlockFrom(region, pos, cur, kv) == BlockResult(kv, EndOfData)
  {
    NoVarintLeft(region, pos, tail);
  }

  /** An entry that does not decode after a run of records (cut off inside any
      of its three varints, or declaring a length `read` refuses) is dropped:
      the records before it are the result, and its failure is the stop reason. */
  lemma TruncatedEntryKeepsRecords(recs: seq<Record>, tail: seq<Byte>)
    requires forall i | 0 <= i < |recs| :: Ordinary(recs[i])
    requires DecodeEntry(EncodeRecords(None, recs) + tail, |EncodeRecords(None, recs)|).Err?
    ensures BlockFrom(EncodeRecords(None, recs) + tail, 0, None, Empty()) ==
      BlockResult(Insert(Empty(), recs), DecodeEntry(EncodeRecords(None, recs) + tail, |EncodeRecords(None, recs)|).error)
  {
    var region := EncodeRecords(None, recs) + tail;
    assert region[0..] == EncodeRecords(None, recs) + tail;
    RecordsRun(region, 0, None, Empty(), recs, tail);
  }

  /** An entry whose key length varint is cut off does not decode. */
  lemma CutInKeyLength(s: seq<Byte>, pos: nat, shared: nat, more: seq<Byte>)
    requires forall i | 0 <= i < |more| :: more[i] >= 128
    requires pos <= |s| && s[pos..] == Varint.Encode(shared) + more
    ensures DecodeEntry(s, pos) == Err(EndOfData)
  {
    var p1 := Varint.VarintAt(s, pos, shared, more);
    NoVarintLeft(s, p1, more);
  }

  /** An entry whose value length varint is cut off does not decode. */
  lemma CutInValueLength(s: seq<Byte>, pos: nat, shared: nat, keyLen: nat, more: seq<Byte>)
    requires forall i | 0 <= i < |more| :: more[i] >= 128
    requires pos <= |s| && s[pos..] == Varint.Encode(shared) + (Varint.Encode(keyLen) + more)
    ensures DecodeEntry(s, pos) == Err(EndOfData)
  {
    var p1 := Varint.VarintAt(s, pos, shared, Varint.Encode(keyLen) + more);
    var p2 := Varint.VarintAt(s, p1, keyLen, more);
    NoVarintLeft(s, p2, more);
  }

  /** No varint can be read where every byte left has its high bit set. */
  lemma NoVarintLeft(s: seq<Byte>, pos: nat, more: seq<Byte>)
    requires forall i | 0 <= i < |more| :: more[i] >= 128
    requires pos <= |s| && s[pos..] == more
    ensures Varint.Decode(s, pos).None?
  {
    assert forall i | pos <= i < |s| :: s[i] == more[i - pos];
    Varint.DecodeEnds(s, pos);
  }

  /** The last record of the data with its last `d` value bytes missing is stored
      with the short value `read` returns, and the loop then stops at the end of
      the data. */
  lemma CutValueKeepsRecords(recs: seq<Record>, last: Record, d: nat)
    requires forall i | 0 <= i < |recs| :: Ordinary(recs[i])
    requires Ordinary(last) && d <= |last.value|
    ensures var e := EncodeRecord(LastKey(None, recs), last);
      BlockFrom(EncodeRecords(None, recs) + e[..|e| - d], 0, None, Empty()) ==
        BlockResult(Insert(Empty(), recs).Put(last.key, Entry(last.status, last.seqNo, last.value[..|last.value| - d])),
                    EndOfData)
  {
    var e := EncodeRecord(LastKey(None, recs), last);
    CutValueAfter(EncodeRecords(None, recs) + e[..|e| - d], recs, last, d);
  }

  /** `CutValueKeepsRecords` over the region as one value. */
  lemma CutValueAfter(region: seq<Byte>, recs: seq<Record>, last: Record, d: nat)
    requires forall i | 0 <= i < |recs| :: Ordinary(recs[i])
    requires Ordinary(last) && d <= |last.value|
    requires var e := EncodeRecord(LastKey(None, recs), last);
      region == EncodeRecords(None, recs) + e[..|e| - d]
    ensures BlockFrom(region, 0, None, Empty()) ==
      BlockResult(Insert(Empty(), recs).Put(last.key, Entry(last.status, last.seqNo, last.value[..|last.value| - d])),
                  EndOfData)
  {
    var e := EncodeRecord(LastKey(None, recs), last);
    var more := e[..|e| - d];
    assert region[0..] == EncodeRecords(None, recs) + more;
    RecordsRun(region, 0, None, Empty(), recs, more);
    CutValueStep(region, |region| - |more|, LastKey(None, recs), Insert(Empty(), recs), last, d);
  }

  /** A record with its last `d` value bytes missing at the end of the data is
      stored with the short value, and the loop stops there. */
  lemma CutValueStep(region: seq<Byte>, pos: nat, prev: Option<Key>, kv: Table, r: Record, d: nat)
    requires Ordinary(r) && d <= |r.value|
    requires pos <= |region| && region[pos..] == EncodeRecord(prev, r)[..|EncodeRecord(prev, r)| - d]
    ensures BlockFrom(region, pos, prev, kv) ==
      BlockResult(kv.Put(r.key, Entry(r.status, r.seqNo, r.value[..|r.value| - d])), EndOfData)
  {
    var n := SharedWith(prev, r.key);
    var ik := InternalKey(r.key[n..], r.status, r.seqNo);
    var k := JoinKey(ik);
    var w := r.value[..|r.value| - d];
    ShortValueRoundTrip(region, pos, n, k, r.value, d);
    assert Pow256(7) == 0x100_0000_0000_0000;
    SplitJoin(ik);
    NextKeyRebuilds(prev, r.key);
    KeyedStep(region, pos, prev, kv, RawEntry(n, |k|, |r.value|, k, w), |region|, ik, r.key);
    CutShortStep(region, |region|, Some(r.key), kv.Put(r.key, Entry(r.status, r.seqNo, w)), []);
  }

  /** A first keyed entry that claims a shared prefix stops the loop with nothing
      stored: there is no previous key, only the initial empty string. */
  lemma SharedFirstEntryStops(shared: nat, ik: InternalKey, value: seq<Byte>, tail: seq<Byte>)
    requires shared != 0 && |ik.name| + 8 < ReadLimit && |value| < ReadLimit
    ensures BlockFrom(EncodeEntry(shared, JoinKey(ik), value) + tail, 0, None, Empty()) ==
      BlockResult(Empty(), TypeMismatch)
  {
    var region := EncodeEntry(shared, JoinKey(ik), value) + tail;
    assert region[0..] == region;
    var next := EntryRoundTrip(region, 0, shared, JoinKey(ik), value, tail);
  }
}
