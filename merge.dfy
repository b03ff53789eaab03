/** The directory reader (`ParseLdbDir`): the log segments and then the table
    files are decoded in turn, and each one's Puts are merged into one
    collection.  The collection is then rendered: a value whose first byte is 1
    is shown as the text after that byte, any other value as its raw bytes. */
module DirectoryMerger {
  import opened Wrappers
  import opened Bytes
  import opened Records
  import opened LogReader
  import opened TableReader

  /** The exceptions that end `ParseLdbDir`. */
  datatype DirError =
    | LogFailed(log: LogError)
    | TableFailed(table: TableError)
    | NotATable   // a table file without the magic number: `for k in None` raises TypeError

  /** Whether the merge stores `e` under `k`: only a Put (status 1) is taken, and
      not over an entry whose sequence number is strictly greater. */
  predicate Admits(c: Table, k: Key, e: Entry)
  {
    e.status == 1 && !(k in c.vals && c.vals[k].seqNo > e.seqNo)
  }

  /** Every entry is a Put. */
  ghost predicate AllPuts(c: Table)
  {
    forall k | k in c.vals :: c.vals[k].status == 1
  }

  /** One step of the merge loop: `kvCollect[k] = e` when admitted. */
  function MergeEntry(c: Table, k: Key, e: Entry): (r: Table)
    requires c.Valid()
    ensures r.Valid()
    ensures AllPuts(c) ==> AllPuts(r)
  {
    if Admits(c, k, e) then
      PutValid(c, k, e);
      c.Put(k, e)
    else c
  }

  /** What one step does to a key `j`: it takes `e` when `j` is the key and `e`
      is admitted, and is otherwise left as it was. */
  lemma MergeEntryAt(c: Table, k: Key, e: Entry, j: Key)
    requires c.Valid()
    ensures j == k && Admits(c, k, e) ==> j in MergeEntry(c, k, e).vals && MergeEntry(c, k, e).vals[j] == e
    ensures !(j == k && Admits(c, k, e)) ==> (j in MergeEntry(c, k, e).vals <==> j in c.vals)
    ensures !(j == k && Admits(c, k, e)) && j in c.vals ==> MergeEntry(c, k, e).vals[j] == c.vals[j]
  {
  }

  /** The merge loop over the first `n` keys of one file's dictionary. */
  function MergeFile(c: Table, kvp: Table, n: nat): (r: Table)
    requires c.Valid() && kvp.Valid() && n <= |kvp.keys|
    ensures r.Valid()
    ensures AllPuts(c) ==> AllPuts(r)
    decreases n
  {
    if n == 0 then c
    else
      KeyAt(kvp, n - 1);
      MergeEntry(MergeFile(c, kvp, n - 1), kvp.keys[n - 1], kvp.vals[kvp.keys[n - 1]])
  }

  /** The whole merge of one file's dictionary. */
  function Merge(c: Table, kvp: Table): (r: Table)
    requires c.Valid() && kvp.Valid()
    ensures r.Valid()
    ensures AllPuts(c) ==> AllPuts(r)
  {
    MergeFile(c, kvp, |kvp.keys|)
  }

  /** A key none of the first `n` keys of the file matches keeps its entry, or
      its absence. */
  lemma {:induction false} MergeFileUntouched(c: Table, kvp: Table, n: nat, k: Key)
    requires c.Valid() && kvp.Valid() && n <= |kvp.keys|
    requires forall j | 0 <= j < n :: kvp.keys[j] != k
    ensures k in MergeFile(c, kvp, n).vals <==> k in c.vals
    ensures k in c.vals ==> MergeFile(c, kvp, n).vals[k] == c.vals[k]
    decreases n
  {
    if n > 0 {
      KeyAt(kvp, n - 1);
      var last := kvp.keys[n - 1];
      MergeFileUntouched(c, kvp, n - 1, k);
      MergeEntryAt(MergeFile(c, kvp, n - 1), last, kvp.vals[last], k);
    }
  }

  /** What merging the first `n` keys of a file does to its `i`-th key: an
      admitted Put replaces the entry, and otherwise, a Delete or a Put older
      than the entry held, the key keeps its entry or its absence.  Each key of
      a file is met once, so it is admitted against what the collection held
      before the file. */
  lemma {:induction false} MergeFileKey(c: Table, kvp: Table, n: nat, i: nat)
    requires c.Valid() && kvp.Valid() && i < n <= |kvp.keys|
    ensures kvp.keys[i] in kvp.vals
    ensures var k := kvp.keys[i]; Admits(c, k, kvp.vals[k]) ==>
      k in MergeFile(c, kvp, n).vals && MergeFile(c, kvp, n).vals[k] == kvp.vals[k]
    ensures var k := kvp.keys[i]; !Admits(c, k, kvp.vals[k]) ==>
      (k in MergeFile(c, kvp, n).vals <==> k in c.vals) &&
      (k in c.vals ==> MergeFile(c, kvp, n).vals[k] == c.vals[k])
    decreases n
  {
    KeyAt(kvp, i);
    KeyAt(kvp, n - 1);
    var k := kvp.keys[i];
    var last := kvp.keys[n - 1];
    var prev := MergeFile(c, kvp, n - 1);
    if i == n - 1 {
      MergeFileUntouched(c, kvp, n - 1, k);
      MergeEntryAt(prev, k, kvp.vals[k], k);
    } else {
      MergeFileKey(c, kvp, n - 1, i);
      assert k != last;
      MergeEntryAt(prev, last, kvp.vals[last], k);
    }
  }

  /** What merging a whole file does to a key it holds. */
  lemma MergeAt(c: Table, kvp: Table, k: Key)
    requires c.Valid() && kvp.Valid() && k in kvp.vals
    ensures Admits(c, k, kvp.vals[k]) ==> k in Merge(c, kvp).vals && Merge(c, kvp).vals[k] == kvp.vals[k]
    ensures !Admits(c, k, kvp.vals[k]) ==> (k in Merge(c, kvp).vals <==> k in c.vals)
    ensures !Admits(c, k, kvp.vals[k]) && k in c.vals ==> Merge(c, kvp).vals[k] == c.vals[k]
  {
    var i :| 0 <= i < |kvp.keys| && kvp.keys[i] == k;
    MergeFileKey(c, kvp, |kvp.keys|, i);
  }

  /** A key the file does not hold keeps its entry, or its absence. */
  lemma MergeElsewhere(c: Table, kvp: Table, k: Key)
    requires c.Valid() && kvp.Valid() && k !in kvp.vals
    ensures k in Merge(c, kvp).vals <==> k in c.vals
    ensures k in c.vals ==> Merge(c, kvp).vals[k] == c.vals[k]
  {
    MergeFileUntouched(c, kvp, |kvp.keys|, k);
  }

  /** After merging a file, a key holds an entry at least as new as before. */
  lemma MergeNeverOlder(c: Table, kvp: Table, k: Key)
    requires c.Valid() && kvp.Valid() && k in c.vals
    ensures k in Merge(c, kvp).vals && Merge(c, kvp).vals[k].seqNo >= c.vals[k].seqNo
  {
    if k in kvp.vals {
      MergeAt(c, kvp, k);
    } else {
      MergeElsewhere(c, kvp, k);
    }
  }

  /** A key the file holds as anything but a Put keeps its entry, or its absence:
      a deletion never removes what an earlier file put. */
  lemma DeleteDoesNotMask(c: Table, kvp: Table, k: Key)
    requires c.Valid() && kvp.Valid() && k in kvp.vals && kvp.vals[k].status != 1
    ensures k in Merge(c, kvp).vals <==> k in c.vals
    ensures k in c.vals ==> Merge(c, kvp).vals[k] == c.vals[k]
  {
    MergeAt(c, kvp, k);
  }

  /** A Put replaces the entry held unless that entry's sequence number is
      strictly greater; on equal numbers the later file wins. */
  lemma PutReplaces(c: Table, kvp: Table, k: Key)
    requires c.Valid() && kvp.Valid() && k in kvp.vals && kvp.vals[k].status == 1
    requires k in c.vals ==> c.vals[k].seqNo <= kvp.vals[k].seqNo
    ensures k in Merge(c, kvp).vals && Merge(c, kvp).vals[k] == kvp.vals[k]
  {
    MergeAt(c, kvp, k);
  }

  /** The log segments in turn, each decoded and merged. */
  function MergeLogs(c: Table, logs: seq<seq<Byte>>): (r: Result<Table, DirError>)
    requires c.Valid()
    ensures r.Ok? ==> r.value.Valid()
    ensures r.Ok? && AllPuts(c) ==> AllPuts(r.value)
    decreases |logs|
  {
    if logs == [] then Ok(c)
    else
      LogFromValid(logs[0], 0, Empty(), None);
      match ParseLog(logs[0])
      case Err(e) => Err(LogFailed(e))
      case Ok(kvp) => MergeLogs(Merge(c, kvp), logs[1..])
  }

  /** The table files in turn, each decoded and merged. */
  function MergeTables(c: Table, tables: seq<seq<Byte>>, uncompress: seq<Byte> -> Option<seq<Byte>>)
    : (r: Result<Table, DirError>)
    requires c.Valid()
    ensures r.Ok? ==> r.value.Valid()
    ensures r.Ok? && AllPuts(c) ==> AllPuts(r.value)
    decreases |tables|
  {
    if tables == [] then Ok(c)
    else match ParseTable(tables[0], uncompress)
      case Err(e) => Err(TableFailed(e))
      case Ok(None) => Err(NotATable)
      case Ok(Some(kvp)) => MergeTables(Merge(c, kvp), tables[1..], uncompress)
  }

  /** A value as the snapshot shows it. */
  datatype Value = Text(text: seq<Byte>) | Raw(bytes: seq<Byte>)

  function Render(v: seq<Byte>): Value
  {
    if |v| > 0 && v[0] == 1 then Text(v[1..]) else Raw(v)
  }

  /** The stored bytes a shown value comes from. */
  function Unrender(x: Value): seq<Byte>
  {
    match x
    case Text(t) => [1] + t
    case Raw(b) => b
  }

  /** Rendering loses nothing: the stored bytes can be recovered ... */
  lemma RenderRoundTrip(v: seq<Byte>)
    ensures Unrender(Render(v)) == v
  {
    if |v| > 0 && v[0] == 1 {
      assert [1] + v[1..] == v;
    }
  }

  /** ... and every text, and every raw value that does not start with 1, is
      what some stored bytes render to. */
  lemma UnrenderRoundTrip(x: Value)
    requires x.Raw? ==> |x.bytes| == 0 || x.bytes[0] != 1
    ensures Render(Unrender(x)) == x
  {
    if x.Text? {
      assert ([1] + x.text)[1..] == x.text;
    }
  }

  /** The rendering loop over the first `n` keys of the collection. */
  function RenderFrom(c: Table, n: nat): Dict<Value>
    requires c.Valid() && n <= |c.keys|
    decreases n
  {
    if n == 0 then Empty()
    else
      KeyAt(c, n - 1);
      RenderFrom(c, n - 1).Put(c.keys[n - 1], Render(c.vals[c.keys[n - 1]].value))
  }

  /** The snapshot holds one entry per key of the collection, in the same order ... */
  lemma {:induction false} RenderFromShape(c: Table, n: nat)
    requires c.Valid() && n <= |c.keys|
    ensures RenderFrom(c, n).keys == c.keys[..n]
    ensures forall k :: k in RenderFrom(c, n).vals <==> k in c.keys[..n]
    decreases n
  {
    if n > 0 {
      RenderFromShape(c, n - 1);
      KeyAt(c, n - 1);
      var prev, last := c.keys[..n - 1], c.keys[n - 1];
      assert c.keys[..n] == prev + [last];
      assert last !in prev by {
        forall i | 0 <= i < n - 1
          ensures prev[i] != last
        {
          assert c.keys[i] != c.keys[n - 1];
        }
      }
      assert last !in RenderFrom(c, n - 1).vals;
      var r := RenderFrom(c, n);
      calc {
        r.keys;
        RenderFrom(c, n - 1).keys + [last];
        prev + [last];
        c.keys[..n];
      }
      assert r.vals == RenderFrom(c, n - 1).vals[last := Render(c.vals[last].value)];
      forall k
        ensures k in r.vals <==> k in c.keys[..n]
      {
        assert k in c.keys[..n] <==> k in prev || k == last;
      }
    }
  }

  /** ... each holding the rendering of that key's value. */
  lemma {:induction false} RenderFromValues(c: Table, n: nat)
    requires c.Valid() && n <= |c.keys|
    ensures forall k | k in RenderFrom(c, n).vals :: k in c.vals && RenderFrom(c, n).vals[k] == Render(c.vals[k].value)
    decreases n
  {
    if n > 0 {
      RenderFromValues(c, n - 1);
      KeyAt(c, n - 1);
      var last := c.keys[n - 1];
      var r := RenderFrom(c, n);
      assert r.vals == RenderFrom(c, n - 1).vals[last := Render(c.vals[last].value)];
      forall k | k in r.vals
        ensures k in c.vals && r.vals[k] == Render(c.vals[k].value)
      {
        if k != last {
          assert k in RenderFrom(c, n - 1).vals;
        }
      }
    }
  }

  /** `ParseLdbDir` over the bytes of its log segments and table files, in the
      order they are listed, with Snappy passed in. */
  function ParseDir(logs: seq<seq<Byte>>, tables: seq<seq<Byte>>, uncompress: seq<Byte> -> Option<seq<Byte>>)
    : Result<Dict<Value>, DirError>
  {
    match MergeLogs(Empty(), logs)
    case Err(e) => Err(e)
    case Ok(c) =>
      match MergeTables(c, tables, uncompress)
      case Err(e) => Err(e)
      case Ok(c') => Ok(RenderFrom(c', |c'.keys|))
  }

  /** The snapshot is the rendering of a collection of Puts: every key it shows
      holds a value some log or table stored with status 1. */
  lemma SnapshotOfPuts(logs: seq<seq<Byte>>, tables: seq<seq<Byte>>, uncompress: seq<Byte> -> Option<seq<Byte>>)
    ensures ParseDir(logs, tables, uncompress).Ok? ==>
      var c := MergeTables(MergeLogs(Empty(), logs).value, tables, uncompress).value;
      AllPuts(c) && ParseDir(logs, tables, uncompress).value.keys == c.keys &&
      forall k | k in c.vals :: k in ParseDir(logs, tables, uncompress).value.vals &&
        ParseDir(logs, tables, uncompress).value.vals[k] == Render(c.vals[k].value)
  {
    if ParseDir(logs, tables, uncompress).Ok? {
      var c := MergeTables(MergeLogs(Empty(), logs).value, tables, uncompress).value;
      RenderFromShape(c, |c.keys|);
      RenderFromValues(c, |c.keys|);
      assert c.keys[..|c.keys|] == c.keys;
    }
  }

  /** The merge loop of one file, over its keys in order. */
  method MergeInto(kvCollect: Table, kvp: Table) returns (c: Table)
    requires kvCollect.Valid() && kvp.Valid()
    ensures c == Merge(kvCollect, kvp)
  {
    c := kvCollect;
    var i := 0;
    while i < |kvp.keys|
      invariant i <= |kvp.keys|
      invariant c == MergeFile(kvCollect, kvp, i)
    {
      KeyAt(kvp, i);
      var k := kvp.keys[i];
      var e := kvp.vals[k];
      if e.status == 1 {
        if !(k in c.vals && c.vals[k].seqNo > e.seqNo) {
          c := c.Put(k, e);
        }
      }
      i := i + 1;
    }
  }

  /** The rendering loop: one entry per key of the collection. */
  method RenderSnapshot(kvCollect: Table) returns (kvPair: Dict<Value>)
    requires kvCollect.Valid()
    ensures kvPair == RenderFrom(kvCollect, |kvCollect.keys|)
  {
    kvPair := Empty();
    var i := 0;
    while i < |kvCollect.keys|
      invariant i <= |kvCollect.keys|
      invariant kvPair == RenderFrom(kvCollect, i)
    {
      KeyAt(kvCollect, i);
      var k := kvCollect.keys[i];
      var v := kvCollect.vals[k].value;
      if |v| > 0 && v[0] == 1 {
        kvPair := kvPair.Put(k, Text(v[1..]));
      } else {
        kvPair := kvPair.Put(k, Raw(v));
      }
      i := i + 1;
    }
  }

  /** `ParseLdbDir`: the log segments, then the table files, each decoded and
      merged in turn, then the collection rendered. */
  method ParseLdbDir(logs: seq<seq<Byte>>, ldbs: seq<seq<Byte>>, uncompress: seq<Byte> -> Option<seq<Byte>>)
    returns (r: Result<Dict<Value>, DirError>)
    ensures r == ParseDir(logs, ldbs, uncompress)
  {
    var kvCollect: Table := Empty();
    var i := 0;
    while i < |logs|
      invariant i <= |logs| && kvCollect.Valid()
      invariant MergeLogs(kvCollect, logs[i..]) == MergeLogs(Empty(), logs)
    {
      assert logs[i..][0] == logs[i] && logs[i..][1..] == logs[i + 1..];
      var kvp := ParseLogFile(logs[i]);
      if kvp.Err? {
        return Err(LogFailed(kvp.error));
      }
      kvCollect := MergeInto(kvCollect, kvp.value);
      i := i + 1;
    }
    assert logs[i..] == [];
    var j := 0;
    while j < |ldbs|
      invariant j <= |ldbs| && kvCollect.Valid()
      invariant MergeTables(kvCollect, ldbs[j..], uncompress) == MergeTables(MergeLogs(Empty(), logs).value, ldbs, uncompress)
    {
      assert ldbs[j..][0] == ldbs[j] && ldbs[j..][1..] == ldbs[j + 1..];
      var kvp := ParseLdbFile(ldbs[j], uncompress);
      if kvp.Err? {
        return Err(TableFailed(kvp.error));
      }
      if kvp.value.None? {
        return Err(NotATable);
      }
      kvCollect := MergeInto(kvCollect, kvp.value.value);
      j := j + 1;
    }
    assert ldbs[j..] == [];
    var kvPair := RenderSnapshot(kvCollect);
    return Ok(kvPair);
  }
}
