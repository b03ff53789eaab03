/** The table-file reader (`ParseLdbFile` and `DumpBlock`).  A table file ends in
    a 48-byte footer: the block handles of the meta-index and index blocks as
    varints, padding, and an 8-byte magic number.  Every block is followed by a
    compression-type byte.  The index block maps keys to the handles of the data
    blocks, and the table's entries are those of its data blocks, copied in
    index order. */
module TableReader {
  import opened Wrappers
  import opened Bytes
  import opened Records
  import Varint
  import opened BlockDecoder

  /** The footer's magic number, as it sits in the file. */
  const Magic: seq<Byte> := [0x57, 0xFB, 0x80, 0x8B, 0x24, 0x75, 0x47, 0xDB]

  /** The exceptions that end `ParseLdbFile`. */
  datatype TableError =
    | TypeByteMissing   // a block that reaches the end of the file: IndexError on its type byte
    | HandleCutShort    // a handle whose varints are cut short: EOFError
    | SnappyFailed      // a compressed block Snappy cannot expand

  /** `s[-n:]` for `n > 0`: the last `n` bytes, or all of them when there are
      fewer. (`s[-0:]` would be all of `s`.) */
  function Last(s: seq<Byte>, n: nat): (r: seq<Byte>)
    requires n > 0
    ensures |r| == Min(n, |s|) && s[..|s| - |r|] + r == s
  {
    s[|s| - Min(n, |s|)..]
  }

  /** The file ends in the magic number; a file of fewer than 8 bytes never does. */
  predicate HasFooter(file: seq<Byte>): (b: bool)
    ensures b <==> 8 <= |file| && file[|file| - 8..] == Magic
  {
    Last(file, 8) == Magic
  }

  /** Where a block sits in the file. */
  datatype Handle = Handle(offset: nat, size: nat)

  datatype Footer = Footer(metaIndex: Handle, index: Handle)

  /** The footer's handles: four varints read from the start of the last 48 bytes. */
  function ReadFooter(file: seq<Byte>): Option<Footer>
  {
    FooterFields(Last(file, 48))
  }

  function FooterFields(t: seq<Byte>): Option<Footer>
  {
    match Varint.Decode(t, 0)
    case None => None
    case Some((metaLoc, p1)) =>
      match Varint.Decode(t, p1)
      case None => None
      case Some((metaSize, p2)) =>
        match Varint.Decode(t, p2)
        case None => None
        case Some((indexLoc, p3)) =>
          match Varint.Decode(t, p3)
          case None => None
          case Some((indexSize, _)) => Some(Footer(Handle(metaLoc, metaSize), Handle(indexLoc, indexSize)))
  }

  /** Reading the footer never fails once the magic number is there: four of its
      bytes (0x57, 0x24, 0x75, 0x47) have the high bit clear, so each of the four
      varints ends inside the last 48 bytes. */
  lemma FooterAlwaysDecodes(file: seq<Byte>)
    requires HasFooter(file)
    ensures ReadFooter(file).Some?
  {
    var t := Last(file, 48);
    var n := |t|;
    assert n >= 8 && t[n - 8..] == Last(file, 8) by {
      assert t == file[|file| - |t|..];
    }
    FooterFieldsEndBy(t);
  }

  /** The four footer varints decode when bytes 8, 4, 3 and 2 from the end have
      the high bit clear, as the magic number's do. */
  lemma FooterFieldsEndBy(t: seq<Byte>)
    requires |t| >= 8 && t[|t| - 8..] == Magic
    ensures FooterFields(t).Some?
  {
    var n := |t|;
    assert t[n - 8] == 0x57 && t[n - 4] == 0x24 && t[n - 3] == 0x75 && t[n - 2] == 0x47;
    Varint.DecodeStopsBy(t, 0, n - 8);
    var p1 := Varint.Decode(t, 0).value.1;
    Varint.DecodeStopsBy(t, p1, n - 4);
    var p2 := Varint.Decode(t, p1).value.1;
    Varint.DecodeStopsBy(t, p2, n - 3);
    var p3 := Varint.Decode(t, p2).value.1;
    Varint.DecodeStopsBy(t, p3, n - 2);
  }

  /** A handle as an index entry stores it: offset then size. */
  function DecodeHandle(v: seq<Byte>): Option<Handle>
  {
    match Varint.Decode(v, 0)
    case None => None
    case Some((loc, p1)) =>
      match Varint.Decode(v, p1)
      case None => None
      case Some((size, _)) => Some(Handle(loc, size))
  }

  /** `ParseBlock(ldbBytes[loc:loc+size], ldbBytes[loc+size], ...)`: the byte
      after the block is its compression type, and it must exist. */
  method ReadBlock(ldbBytes: seq<Byte>, h: Handle, uncompress: seq<Byte> -> Option<seq<Byte>>)
    returns (r: Result<BlockResult, TableError>)
    ensures r == LoadBlock(ldbBytes, h, uncompress)
  {
    if |ldbBytes| <= h.offset + h.size {
      return Err(TypeByteMissing);
    }
    var kvpBlock := ParseBlock(ldbBytes[h.offset..h.offset + h.size], ldbBytes[h.offset + h.size], uncompress);
    if kvpBlock.Err? {
      return Err(SnappyFailed);
    }
    return Ok(kvpBlock.value);
  }

  /** The block at `h`, as `ReadBlock` parses it. */
  function LoadBlock(file: seq<Byte>, h: Handle, uncompress: seq<Byte> -> Option<seq<Byte>>)
    : (r: Result<BlockResult, TableError>)
    ensures r.Ok? ==> r.value.entries.Valid()
    ensures r == Err(TypeByteMissing) <==> |file| <= h.offset + h.size
  {
    if |file| <= h.offset + h.size then Err(TypeByteMissing)
    else
      var raw := file[h.offset..h.offset + h.size];
      var tag := file[h.offset + h.size];
      match DecodeBlock(raw, tag, uncompress)
      case Err(_) => Err(SnappyFailed)
      case Ok(b) => Ok(b)
  }

  /** The first loop of `DumpBlock`, from the `i`-th index key on: the handles of
      all index entries, or the failure of the first that does not decode. */
  function HandlesFrom(index: Table, i: nat, acc: seq<Handle>): (r: Result<seq<Handle>, TableError>)
    requires index.Valid() && i <= |index.keys|
    ensures r.Ok? ==> |r.value| == |acc| + |index.keys| - i && r.value[..|acc|] == acc
    ensures r.Ok? ==> forall j | i <= j < |index.keys| ::
      index.keys[j] in index.vals && DecodeHandle(index.vals[index.keys[j]].value) == Some(r.value[|acc| + j - i])
    ensures r.Err? <==> exists j | i <= j < |index.keys| ::
      index.keys[j] in index.vals && DecodeHandle(index.vals[index.keys[j]].value).None?
    ensures r.Err? ==> r.error == HandleCutShort
    decreases |index.keys| - i
  {
    if i == |index.keys| then Ok(acc)
    else
      KeyAt(index, i);
      match DecodeHandle(index.vals[index.keys[i]].value)
      case None => Err(HandleCutShort)
      case Some(h) => HandlesFrom(index, i + 1, acc + [h])
  }

  /** The second loop of `DumpBlock`, from the `j`-th handle on: each block's
      entries are copied over the table built so far. */
  function DumpFrom(file: seq<Byte>, hs: seq<Handle>, j: nat, kv: Table, uncompress: seq<Byte> -> Option<seq<Byte>>)
    : (r: Result<Table, TableError>)
    requires j <= |hs| && kv.Valid()
    ensures r.Ok? ==> r.value.Valid()
    decreases |hs| - j
  {
    if j == |hs| then Ok(kv)
    else match LoadBlock(file, hs[j], uncompress)
      case Err(e) => Err(e)
      case Ok(b) =>
        UpdateValid(kv, b.entries, |b.entries.keys|);
        DumpFrom(file, hs, j + 1, Update(kv, b.entries, |b.entries.keys|), uncompress)
  }

  /** `DumpBlock(_, _, index, ldbBytes)`: the entries of the blocks the index
      points at. */
  function Dump(file: seq<Byte>, index: Table, uncompress: seq<Byte> -> Option<seq<Byte>>): (r: Result<Table, TableError>)
    requires index.Valid()
    ensures r.Ok? ==> r.value.Valid()
  {
    match HandlesFrom(index, 0, [])
    case Err(e) => Err(e)
    case Ok(hs) => DumpFrom(file, hs, 0, Empty(), uncompress)
  }

  /** `ParseLdbFile` on the bytes of one table file: `Ok(None)` when the magic
      number is missing, otherwise the entries of its data blocks.  The
      meta-index block is read and dumped too, so its failures are the file's. */
  function ParseTable(file: seq<Byte>, uncompress: seq<Byte> -> Option<seq<Byte>>)
    : (r: Result<Option<Table>, TableError>)
    ensures r == Ok(None) <==> !HasFooter(file)
    ensures r.Ok? && r.value.Some? ==> r.value.value.Valid()
  {
    if !HasFooter(file) then Ok(None)
    else
      FooterAlwaysDecodes(file);
      var f := ReadFooter(file).value;
      match LoadBlock(file, f.metaIndex, uncompress)
      case Err(e) => Err(e)
      case Ok(meta) =>
        match Dump(file, meta.entries, uncompress)
        case Err(e) => Err(e)
        case Ok(_) =>
          match LoadBlock(file, f.index, uncompress)
          case Err(e) => Err(e)
          case Ok(index) =>
            match Dump(file, index.entries, uncompress)
            case Err(e) => Err(e)
            case Ok(t) => Ok(Some(t))
  }

  /** `DumpBlock`: first every index value is decoded as a handle (the listing
      loop, which raises on the first bad one), then every block is parsed and
      its entries copied over the result in index order. */
  method DumpBlock(kvp: Table, ldbBytes: seq<Byte>, uncompress: seq<Byte> -> Option<seq<Byte>>)
    returns (r: Result<Table, TableError>)
    requires kvp.Valid()
    ensures r == Dump(ldbBytes, kvp, uncompress)
    ensures r.Ok? ==> r.value.Valid()
  {
    var hs: seq<Handle> := [];
    var i := 0;
    while i < |kvp.keys|
      invariant i <= |kvp.keys|
      invariant HandlesFrom(kvp, i, hs) == HandlesFrom(kvp, 0, [])
    {
      KeyAt(kvp, i);
      var h := DecodeHandle(kvp.vals[kvp.keys[i]].value);
      if h.None? {
        return Err(HandleCutShort);
      }
      hs := hs + [h.value];
      i := i + 1;
    }
    var kvPair: Table := Empty();
    var j := 0;
    while j < |hs|
      invariant j <= |hs| && kvPair.Valid()
      invariant DumpFrom(ldbBytes, hs, j, kvPair, uncompress) == Dump(ldbBytes, kvp, uncompress)
    {
      var kvpBlock := ReadBlock(ldbBytes, hs[j], uncompress);
      if kvpBlock.Err? {
        return Err(kvpBlock.error);
      }
      kvPair := CopyInto(kvPair, kvpBlock.value.entries);
      j := j + 1;
    }
    return Ok(kvPair);
  }

  /** `ParseLdbFile` over the bytes of one table file. */
  method ParseLdbFile(ldbBytes: seq<Byte>, uncompress: seq<Byte> -> Option<seq<Byte>>)
    returns (r: Result<Option<Table>, TableError>)
    ensures r == ParseTable(ldbBytes, uncompress)
    ensures r.Ok? && r.value.Some? ==> r.value.value.Valid()
  {
    if Last(ldbBytes, 8) != Magic {
      return Ok(None);
    }
    FooterAlwaysDecodes(ldbBytes);
    var footer := ReadFooter(ldbBytes).value;
    var kvp := ReadBlock(ldbBytes, footer.metaIndex, uncompress);
    if kvp.Err? {
      return Err(kvp.error);
    }
    var metaBlocks := DumpBlock(kvp.value.entries, ldbBytes, uncompress);
    if metaBlocks.Err? {
      return Err(metaBlocks.error);
    }
    kvp := ReadBlock(ldbBytes, footer.index, uncompress);
    if kvp.Err? {
      return Err(kvp.error);
    }
    var blkkvp := DumpBlock(kvp.value.entries, ldbBytes, uncompress);
    if blkkvp.Err? {
      return Err(blkkvp.error);
    }
    return Ok(Some(blkkvp.value));
  }
}

/** What the table reader promises, stated against an encoder of the footer and
    the block handles. */
module TableFormat {
  import opened Wrappers
  import opened Bytes
  import opened Records
  import Varint
  import opened BlockDecoder
  import opened TableReader

  function EncodeHandle(h: Handle): seq<Byte>
  {
    Varint.Encode(h.offset) + Varint.Encode(h.size)
  }

  /** The 48-byte footer: both handles, padding up to 40 bytes, the magic number. */
  function EncodeFooter(meta: Handle, index: Handle, pad: seq<Byte>): seq<Byte>
  {
    EncodeHandle(meta) + EncodeHandle(index) + pad + Magic
  }

  /** A handle is read back from the front of an index value, whatever follows it. */
  lemma HandleRoundTrip(h: Handle, rest: seq<Byte>)
    ensures DecodeHandle(EncodeHandle(h) + rest) == Some(h)
  {
    var s := EncodeHandle(h) + rest;
    assert s[0..] == Varint.Encode(h.offset) + (Varint.Encode(h.size) + rest);
    var p1 := Varint.VarintAt(s, 0, h.offset, Varint.Encode(h.size) + rest);
    var p2 := Varint.VarintAt(s, p1, h.size, rest);
  }

  /** The two handles are read back from the front of a footer. */
  lemma FooterFieldsRoundTrip(meta: Handle, index: Handle, pad: seq<Byte>)
    ensures FooterFields(EncodeFooter(meta, index, pad)) == Some(Footer(meta, index))
  {
    var t := EncodeFooter(meta, index, pad);
    var a, b := Varint.Encode(meta.offset), Varint.Encode(meta.size);
    var c, d := Varint.Encode(index.offset), Varint.Encode(index.size);
    assert t[0..] == a + (b + (c + (d + (pad + Magic))));
    var p1 := Varint.VarintAt(t, 0, meta.offset, b + (c + (d + (pad + Magic))));
    var p2 := Varint.VarintAt(t, p1, meta.size, c + (d + (pad + Magic)));
    var p3 := Varint.VarintAt(t, p2, index.offset, d + (pad + Magic));
    var p4 := Varint.VarintAt(t, p3, index.size, pad + Magic);
  }

  /** A file that ends in a 48-byte footer has the magic number, and its two
      handles are read back. */
  lemma FooterRoundTrip(body: seq<Byte>, meta: Handle, index: Handle, pad: seq<Byte>)
    requires |EncodeHandle(meta)| + |EncodeHandle(index)| + |pad| == 40
    ensures HasFooter(body + EncodeFooter(meta, index, pad))
    ensures ReadFooter(body + EncodeFooter(meta, index, pad)) == Some(Footer(meta, index))
  {
    var f := EncodeFooter(meta, index, pad);
    assert Last(body + f, 8) == Magic;
    assert Last(body + f, 48) == f;
    FooterFieldsRoundTrip(meta, index, pad);
  }

  /** A block stored uncompressed (type byte other than 1) at `h` is parsed as is. */
  lemma LoadPlainBlock(file: seq<Byte>, h: Handle, block: seq<Byte>, tag: Byte,
                       uncompress: seq<Byte> -> Option<seq<Byte>>)
    requires tag != 1 && |block| == h.size
    requires h.offset + h.size < |file| && file[h.offset..h.offset + h.size + 1] == block + [tag]
    ensures LoadBlock(file, h, uncompress) == Ok(BlockEntries(block))
  {
    assert file[h.offset..h.offset + h.size] == (block + [tag])[..|block|];
    assert file[h.offset + h.size] == (block + [tag])[|block|];
  }

  /** The blocks the handles point at, in order, or the failure of the first
      that cannot be loaded. */
  function Blocks(file: seq<Byte>, hs: seq<Handle>, uncompress: seq<Byte> -> Option<seq<Byte>>)
    : (r: Result<seq<Table>, TableError>)
    ensures r.Ok? ==> |r.value| == |hs|
    decreases |hs|
  {
    if hs == [] then Ok([])
    else match LoadBlock(file, hs[0], uncompress)
      case Err(e) => Err(e)
      case Ok(b) =>
        match Blocks(file, hs[1..], uncompress)
        case Err(e) => Err(e)
        case Ok(ts) => Ok([b.entries] + ts)
  }

  /** The entries of `ts` laid over `m` in order, each table overwriting what the
      ones before it left. */
  function Union(m: map<Key, Entry>, ts: seq<Table>): map<Key, Entry>
    decreases |ts|
  {
    if ts == [] then m else Union(m + ts[0].vals, ts[1..])
  }

  /** The copy loop of `DumpBlock` fails exactly when some block cannot be
      loaded, with that block's failure; otherwise its table holds the union of
      the blocks' entries, later blocks overwriting earlier ones. */
  lemma {:induction false} DumpIsUnion(file: seq<Byte>, hs: seq<Handle>, j: nat, kv: Table,
                                       uncompress: seq<Byte> -> Option<seq<Byte>>)
    requires j <= |hs| && kv.Valid()
    ensures DumpFrom(file, hs, j, kv, uncompress).Ok? <==> Blocks(file, hs[j..], uncompress).Ok?
    ensures DumpFrom(file, hs, j, kv, uncompress).Err? ==>
      DumpFrom(file, hs, j, kv, uncompress).error == Blocks(file, hs[j..], uncompress).error
    ensures DumpFrom(file, hs, j, kv, uncompress).Ok? ==>
      DumpFrom(file, hs, j, kv, uncompress).value.vals == Union(kv.vals, Blocks(file, hs[j..], uncompress).value)
    decreases |hs| - j
  {
    if j < |hs| {
      assert hs[j..][0] == hs[j] && hs[j..][1..] == hs[j + 1..];
      match LoadBlock(file, hs[j], uncompress)
      case Err(e) =>
      case Ok(b) =>
        UpdateIsUnion(kv, b.entries);
        UpdateValid(kv, b.entries, |b.entries.keys|);
        DumpIsUnion(file, hs, j + 1, Update(kv, b.entries, |b.entries.keys|), uncompress);
    }
  }

  /** `DumpBlock` succeeds exactly when every index value decodes as a handle
      and every block they point at loads; its table then holds the union of
      those blocks' entries, taken in index order, later blocks overriding. */
  lemma DumpOfIndex(file: seq<Byte>, index: Table, uncompress: seq<Byte> -> Option<seq<Byte>>)
    requires index.Valid()
    ensures Dump(file, index, uncompress).Ok? <==>
      HandlesFrom(index, 0, []).Ok? && Blocks(file, HandlesFrom(index, 0, []).value, uncompress).Ok?
    ensures Dump(file, index, uncompress).Ok? ==>
      Dump(file, index, uncompress).value.vals ==
        Union(map[], Blocks(file, HandlesFrom(index, 0, []).value, uncompress).value)
  {
    if HandlesFrom(index, 0, []).Ok? {
      var hs := HandlesFrom(index, 0, []).value;
      assert hs[0..] == hs;
      DumpIsUnion(file, hs, 0, Empty(), uncompress);
    }
  }

  /** A key no table of `ts` holds keeps what `m` had for it. */
  lemma {:induction false} UnionUntouched(m: map<Key, Entry>, ts: seq<Table>, k: Key)
    requires forall i | 0 <= i < |ts| :: k !in ts[i].vals
    ensures k in Union(m, ts) <==> k in m
    ensures k in m ==> Union(m, ts)[k] == m[k]
    decreases |ts|
  {
    if ts != [] {
      UnionUntouched(m + ts[0].vals, ts[1..], k);
    }
  }

  /** A key takes its entry from the last table that holds it. */
  lemma {:induction false} UnionLast(m: map<Key, Entry>, ts: seq<Table>, i: nat, k: Key)
    requires i < |ts| && k in ts[i].vals
    requires forall j | i < j < |ts| :: k !in ts[j].vals
    ensures k in Union(m, ts) && Union(m, ts)[k] == ts[i].vals[k]
    decreases |ts|
  {
    if i == 0 {
      UnionUntouched(m + ts[0].vals, ts[1..], k);
    } else {
      UnionLast(m + ts[0].vals, ts[1..], i - 1, k);
    }
  }
}
