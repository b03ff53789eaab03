/** The log-segment decoder (`ParseLogFile`).  A segment is a run of physical
    records, each a 4-byte CRC (never checked), a 2-byte little-endian payload
    length, a 1-byte type and the payload.  Type 1 or 2 starts a write batch: an
    8-byte little-endian sequence base, a 4-byte operation count, then the
    operations.  Any other type continues the previous batch with the sequence
    number and count left over from it. */
module LogReader {
  import opened Wrappers
  import opened Bytes
  import opened Records
  import Varint

  /** The exceptions that end `ParseLogFile`. */
  datatype LogError =
    | TruncatedHeader    // a record header cut short: IndexError on the length or type byte
    | NoBatchYet         // a continuation before any batch start: `seq` and `count` unbound
    | TruncatedOperation // a key or value length varint cut short: EOFError
    | OversizedRead      // a key or value length `read` cannot take: OverflowError

  /** One decoded operation: the status byte as read, the key, and the value
      (empty unless the status is 1). */
  datatype Op = Op(status: Byte, key: Key, value: seq<Byte>)

  /** The `seq` and `count` the loop carries from one physical record to the next. */
  datatype Batch = Batch(seqNo: nat, count: nat)

  /** A physical record: its type, its payload and the offset of the next record. */
  datatype Frame = Frame(kind: Byte, payload: seq<Byte>, next: nat)

  function ReadFrame(data: seq<Byte>, idx: nat): (r: Option<Frame>)
    requires idx < |data|
    ensures r.Some? <==> idx + 7 <= |data|
    ensures r.Some? ==> idx + 7 <= r.value.next
  {
    if |data| < idx + 7 then None
    else
      var size: nat := data[idx + 4] + 256 * (data[idx + 5] as int);
      Some(Frame(data[idx + 6], Slice(data, idx + 7, idx + 7 + size), idx + 7 + size))
  }

  /** The sequence base and count at the head of a batch payload. */
  function BatchHeader(payload: seq<Byte>): (b: Batch)
    ensures b.seqNo < Pow256(8) && b.count < Pow256(4)
  {
    Batch(LittleEndian(Slice(payload, 0, 8)), LittleEndian(Slice(payload, 8, 12)))
  }

  /** A key or value at `pos`: its length varint, then a `read` of that length,
      which is short when the stream ends early. */
  function ReadField(s: seq<Byte>, pos: nat): (r: Result<(seq<Byte>, nat), LogError>)
    requires pos <= |s|
    ensures r.Ok? ==> pos < r.value.1 <= |s|
  {
    match Varint.Decode(s, pos)
    case None => Err(TruncatedOperation)
    case Some((n, p)) =>
      if n >= ReadLimit then Err(OversizedRead)
      else
        var x := Read(s, p, n);
        Ok((x, p + |x|))
  }

  /** One operation at `pos`: status byte, then the key, and for a Put the value. */
  function DecodeOp(s: seq<Byte>, pos: nat): (r: Result<(Op, nat), LogError>)
    requires pos < |s|
    ensures r.Ok? ==> pos < r.value.1 <= |s| && r.value.0.status == s[pos]
    ensures r.Ok? && s[pos] != 1 ==> r.value.0.value == []
  {
    var st := s[pos];
    match ReadField(s, pos + 1)
    case Err(e) => Err(e)
    case Ok((key, p1)) =>
      if st == 1 then
        match ReadField(s, p1)
        case Err(e) => Err(e)
        case Ok((val, p2)) => Ok((Op(st, key, val), p2))
      else Ok((Op(st, key, []), p1))
  }

  /** Up to `n` more operations from `pos`, appended to `acc`.  Running out of
      bytes where a status byte should be ends the list early without error. */
  function DecodeOps(s: seq<Byte>, pos: nat, n: nat, acc: seq<Op>): (r: Result<(seq<Op>, nat), LogError>)
    requires pos <= |s|
    ensures r.Ok? ==> |acc| <= |r.value.0| <= |acc| + n
    ensures r.Ok? ==> pos <= r.value.1 <= |s|
    ensures r.Ok? && |r.value.0| < |acc| + n ==> r.value.1 == |s|
    decreases n
  {
    if n == 0 || pos == |s| then Ok((acc, pos))
    else match DecodeOp(s, pos)
      case Err(e) => Err(e)
      case Ok((op, next)) => DecodeOps(s, next, n - 1, acc + [op])
  }

  /** `kvPair[key] = [st, seq, val]; seq = seq + 1` for each operation in turn:
      the i-th operation is stored under sequence `base + i`. */
  function Apply(kv: Table, ops: seq<Op>, base: nat): (r: Table)
    ensures kv.keys <= r.keys
    decreases |ops|
  {
    if ops == [] then kv
    else
      var last := ops[|ops| - 1];
      Apply(kv, ops[..|ops| - 1], base).Put(last.key, Entry(last.status, base + |ops| - 1, last.value))
  }

  /** What the `for` loop of `ReadOps` knows after `|done|` operations. */
  ghost predicate OpsLoopState(stream: seq<Byte>, count: nat, seqNo: nat, kvPair: Table,
                               pos: nat, done: seq<Op>, kv: Table)
  {
    |done| <= count && pos <= |stream| &&
    DecodeOps(stream, pos, count - |done|, done) == DecodeOps(stream, 0, count, []) &&
    kv == Apply(kvPair, done, seqNo)
  }

  lemma OpsLoopStep(stream: seq<Byte>, count: nat, seqNo: nat, kvPair: Table,
                    pos: nat, done: seq<Op>, kv: Table)
    requires OpsLoopState(stream, count, seqNo, kvPair, pos, done, kv)
    requires |done| < count && pos < |stream| && DecodeOp(stream, pos).Ok?
    ensures var (op, next) := DecodeOp(stream, pos).value;
      OpsLoopState(stream, count, seqNo, kvPair, next, done + [op],
                   kv.Put(op.key, Entry(op.status, seqNo + |done|, op.value)))
  {
    var (op, next) := DecodeOp(stream, pos).value;
    DecodeOpsCons(stream, pos, count - |done|, done, op, next);
    ApplySnoc(kvPair, done, op, seqNo);
  }

  /** Reading one more operation from the stream. */
  lemma DecodeOpsCons(s: seq<Byte>, pos: nat, n: nat, acc: seq<Op>, op: Op, next: nat)
    requires 0 < n && pos < |s| && DecodeOp(s, pos) == Ok((op, next))
    ensures DecodeOps(s, pos, n, acc) == DecodeOps(s, next, n - 1, acc + [op])
  {
  }

  /** One more operation is one more `Put`, numbered after the ones before it. */
  lemma ApplySnoc(kv: Table, ops: seq<Op>, op: Op, base: nat)
    ensures Apply(kv, ops + [op], base) == Apply(kv, ops, base).Put(op.key, Entry(op.status, base + |ops|, op.value))
  {
    assert (ops + [op])[..|ops|] == ops;
  }

  lemma OpsLoopExit(stream: seq<Byte>, count: nat, seqNo: nat, kvPair: Table,
                    pos: nat, done: seq<Op>, kv: Table)
    requires OpsLoopState(stream, count, seqNo, kvPair, pos, done, kv)
    requires |done| == count || pos == |stream|
    ensures RunOps(stream, count, seqNo, kvPair) == Ok((kv, Batch(seqNo + |done|, CountAfter(count, |done|))))
  {
  }

  lemma {:induction false} ApplyValid(kv: Table, ops: seq<Op>, base: nat)
    requires kv.Valid()
    ensures Apply(kv, ops, base).Valid()
    decreases |ops|
  {
    if ops != [] {
      var last := ops[|ops| - 1];
      ApplyValid(kv, ops[..|ops| - 1], base);
      PutValid(Apply(kv, ops[..|ops| - 1], base), last.key, Entry(last.status, base + |ops| - 1, last.value));
    }
  }

  /** The count left after a record: `count - i` when the operations ran out at
      `i`, the unchanged count when all were read. */
  function CountAfter(count: nat, decoded: nat): (r: nat)
    ensures r <= count && (r < count ==> decoded < count)
  {
    if decoded < count then count - decoded else count
  }

  /** The operation loop of one physical record: the dictionary after its
      operations, and the `seq` and `count` handed on to the next record. */
  function RunOps(stream: seq<Byte>, count: nat, seqNo: nat, kv: Table): (r: Result<(Table, Batch), LogError>)
    ensures r.Ok? ==> kv.keys <= r.value.0.keys
    ensures r.Ok? ==> seqNo <= r.value.1.seqNo <= seqNo + count && r.value.1.count <= count
  {
    match DecodeOps(stream, 0, count, [])
    case Err(e) => Err(e)
    case Ok((ops, _)) => Ok((Apply(kv, ops, seqNo), Batch(seqNo + |ops|, CountAfter(count, |ops|))))
  }

  /** The records from `idx` on, given the dictionary and the batch state so far. */
  function LogFrom(data: seq<Byte>, idx: nat, kv: Table, batch: Option<Batch>): (r: Result<Table, LogError>)
    ensures r.Ok? ==> kv.keys <= r.value.keys
    decreases |data| - idx
  {
    if |data| <= idx then Ok(kv)
    else match ReadFrame(data, idx)
      case None => Err(TruncatedHeader)
      case Some(f) =>
        var start := f.kind == 1 || f.kind == 2;
        var b := if start then Some(BatchHeader(f.payload)) else batch;
        var stream := if start then Slice(f.payload, 12, |f.payload|) else f.payload;
        if b.None? then Err(NoBatchYet)
        else match RunOps(stream, b.value.count, b.value.seqNo, kv)
          case Err(e) => Err(e)
          case Ok((kv', batch')) => LogFrom(data, f.next, kv', Some(batch'))
  }

  /** Every dictionary the segment decoder returns is a well-formed `dict`. */
  lemma {:induction false} LogFromValid(data: seq<Byte>, idx: nat, kv: Table, batch: Option<Batch>)
    requires kv.Valid()
    ensures LogFrom(data, idx, kv, batch).Ok? ==> LogFrom(data, idx, kv, batch).value.Valid()
    decreases |data| - idx
  {
    if idx < |data| && ReadFrame(data, idx).Some? {
      var f := ReadFrame(data, idx).value;
      var start := f.kind == 1 || f.kind == 2;
      var b := if start then Some(BatchHeader(f.payload)) else batch;
      var stream := if start then Slice(f.payload, 12, |f.payload|) else f.payload;
      if b.Some? && DecodeOps(stream, 0, b.value.count, []).Ok? {
        ApplyValid(kv, DecodeOps(stream, 0, b.value.count, []).value.0, b.value.seqNo);
        var r := RunOps(stream, b.value.count, b.value.seqNo, kv).value;
        LogFromValid(data, f.next, r.0, Some(r.1));
      }
    }
  }

  /** `ParseLogFile` on the bytes of one segment. */
  function ParseLog(data: seq<Byte>): (r: Result<Table, LogError>)
    ensures r.Ok? ==> r.value.Valid()
  {
    LogFromValid(data, 0, Empty(), None);
    LogFrom(data, 0, Empty(), None)
  }

  /** The `for i in range(count)` loop of one physical record: decodes up to
      `count` operations from `stream` into `kvPair`, numbering them from `seqNo`.
      The outcome is the new dictionary, the next sequence number and the count
      handed on to a continuation record. */
  method ReadOps(stream: seq<Byte>, count: nat, seqNo: nat, kvPair: Table)
    returns (r: Result<(Table, Batch), LogError>)
    ensures r == RunOps(stream, count, seqNo, kvPair)
  {
    var kv := kvPair;
    var sq := seqNo;
    ghost var done: seq<Op> := [];
    var pos: nat := 0;
    var remaining := count;
    var i: nat := 0;
    while i < count
      invariant OpsLoopState(stream, count, seqNo, kvPair, pos, done, kv)
      invariant i == |done| && sq == seqNo + i && remaining == count
      decreases count - i
    {
      if pos == |stream| {
        remaining := count - i;
        break;
      }
      var step := DecodeOp(stream, pos);
      if step.Err? {
        return Err(step.error);
      }
      OpsLoopStep(stream, count, seqNo, kvPair, pos, done, kv);
      var op := step.value.0;
      kv := kv.Put(op.key, Entry(op.status, sq, op.value));
      done := done + [op];
      sq := sq + 1;
      pos := step.value.1;
      i := i + 1;
    }
    OpsLoopExit(stream, count, seqNo, kvPair, pos, done, kv);
    return Ok((kv, Batch(sq, remaining)));
  }

  /** `ParseLogFile` over the bytes of one segment. */
  method ParseLogFile(logBytes: seq<Byte>) returns (r: Result<Table, LogError>)
    ensures r == ParseLog(logBytes)
    ensures r.Ok? ==> r.value.Valid()
  {
    var idx: nat := 0;
    var kvPair: Table := Empty();
    var batch: Option<Batch> := None;
    while idx < |logBytes|
      invariant kvPair.Valid()
      invariant LogFrom(logBytes, idx, kvPair, batch) == ParseLog(logBytes)
      decreases |logBytes| - idx
    {
      if |logBytes| < idx + 7 {
        return Err(TruncatedHeader);
      }
      var frame := ReadFrame(logBytes, idx).value;
      var seqNo: nat, count: nat, stream: seq<Byte>;
      if frame.kind == 1 || frame.kind == 2 {
        var header := BatchHeader(frame.payload);
        seqNo, count := header.seqNo, header.count;
        stream := Slice(frame.payload, 12, |frame.payload|);
      } else {
        if batch.None? {
          return Err(NoBatchYet);
        }
        seqNo, count := batch.value.seqNo, batch.value.count;
        stream := frame.payload;
      }
      var step := ReadOps(stream, count, seqNo, kvPair);
      if step.Err? {
        return Err(step.error);
      }
      ghost var ops := DecodeOps(stream, 0, count, []).value.0;
      ApplyValid(kvPair, ops, seqNo);
      kvPair, batch := step.value.0, Some(step.value.1);
      idx := frame.next;
    }
    return Ok(kvPair);
  }
}

/** What the log decoder promises, stated against an encoder of the same format. */
module LogFormat {
  import opened Wrappers
  import opened Bytes
  import opened Records
  import Varint
  import opened LogReader

  /** A physical record: CRC, payload length (low byte first), type, payload. */
  function EncodeFrame(crc: seq<Byte>, kind: Byte, payload: seq<Byte>): seq<Byte>
    requires |crc| == 4 && |payload| < 65536
  {
    crc + [|payload| % 256, |payload| / 256, kind] + payload
  }

  /** Only a Put carries a value on the wire, and `read` can take the lengths. */
  predicate Encodable(op: Op)
  {
    (op.status != 1 ==> op.value == []) && |op.key| < ReadLimit && |op.value| < ReadLimit
  }

  /** A length varint followed by that many bytes, as keys and values are stored. */
  function EncodeField(x: seq<Byte>): seq<Byte>
  {
    Varint.Encode(|x|) + x
  }

  function EncodeOp(op: Op): seq<Byte>
  {
    [op.status] + EncodeField(op.key) + (if op.status == 1 then EncodeField(op.value) else [])
  }

  function EncodeOps(ops: seq<Op>): seq<Byte>
  {
    if ops == [] then [] else EncodeOp(ops[0]) + EncodeOps(ops[1..])
  }

  /** A batch payload: sequence base, operation count, operations. */
  function BatchPayload(seqNo: nat, count: nat, ops: seq<Op>): seq<Byte>
  {
    LittleEndianBytes(seqNo, 8) + LittleEndianBytes(count, 4) + EncodeOps(ops)
  }

  /** The header is read back whatever the record's type: the payload length is
      `byte[idx+4] + 256 * byte[idx+5]` and the next record starts `7 + size`
      bytes on. */
  lemma FrameRoundTrip(data: seq<Byte>, idx: nat, crc: seq<Byte>, kind: Byte, payload: seq<Byte>)
    requires |crc| == 4 && |payload| < 65536
    requires idx + 7 + |payload| <= |data|
    requires data[idx..idx + 7 + |payload|] == EncodeFrame(crc, kind, payload)
    ensures ReadFrame(data, idx) == Some(Frame(kind, payload, idx + 7 + |payload|))
  {
    var e := EncodeFrame(crc, kind, payload);
    assert data[idx + 4] == e[4] && data[idx + 5] == e[5] && data[idx + 6] == e[6];
    assert data[idx + 7..idx + 7 + |payload|] == e[7..];
  }

  /** The batch header gives back the sequence base and count it was built from,
      and the operations start right after it. */
  lemma BatchHeaderRoundTrip(seqNo: nat, count: nat, ops: seq<Op>)
    requires seqNo < Pow256(8) && count < Pow256(4)
    ensures BatchHeader(BatchPayload(seqNo, count, ops)) == Batch(seqNo, count)
    ensures Slice(BatchPayload(seqNo, count, ops), 12, |BatchPayload(seqNo, count, ops)|) == EncodeOps(ops)
  {
    var p := BatchPayload(seqNo, count, ops);
    assert Slice(p, 0, 8) == LittleEndianBytes(seqNo, 8);
    assert Slice(p, 8, 12) == LittleEndianBytes(count, 4);
    LittleEndianRoundTrip(seqNo, 8);
    LittleEndianRoundTrip(count, 4);
  }

  /** A length-prefixed field is read back, and the cursor lands right after it. */
  lemma FieldRoundTrip(x: seq<Byte>, s: seq<Byte>, pos: nat)
    requires |x| < ReadLimit
    requires pos + |EncodeField(x)| <= |s| && s[pos..pos + |EncodeField(x)|] == EncodeField(x)
    ensures ReadField(s, pos) == Ok((x, pos + |EncodeField(x)|))
  {
    SplitAt(s, pos, Varint.Encode(|x|), x);
    Varint.DecodeEncode(|x|, s, pos);
  }

  /** A length `read` cannot take fails the field, whatever follows it. */
  lemma OversizedField(s: seq<Byte>, pos: nat, n: nat, rest: seq<Byte>)
    requires n >= ReadLimit
    requires pos <= |s| && s[pos..] == Varint.Encode(n) + rest
    ensures ReadField(s, pos) == Err(OversizedRead)
  {
    var next := Varint.VarintAt(s, pos, n, rest);
  }

  /** Where the status byte and the two fields of an encoded operation sit. */
  lemma SplitOp(s: seq<Byte>, pos: nat, st: Byte, k: seq<Byte>, v: seq<Byte>)
    requires pos + 1 + |k| + |v| <= |s| && s[pos..pos + 1 + |k| + |v|] == [st] + k + v
    ensures s[pos] == st
    ensures s[pos + 1..pos + 1 + |k|] == k
    ensures s[pos + 1 + |k|..pos + 1 + |k| + |v|] == v
  {
    SplitAt(s, pos, [st] + k, v);
    SplitAt(s, pos, [st], k);
    assert s[pos] == s[pos..pos + 1][0];
  }

  /** A Put whose status byte and two fields sit one after another at `pos`
      is read back with its value. */
  lemma DecodePutFields(s: seq<Byte>, pos: nat, op: Op)
    requires op.status == 1 && pos < |s| && s[pos] == 1
    requires |op.key| < ReadLimit && |op.value| < ReadLimit
    requires var q := pos + 1 + |EncodeField(op.key)|;
      q + |EncodeField(op.value)| <= |s| &&
      s[pos + 1..q] == EncodeField(op.key) && s[q..q + |EncodeField(op.value)|] == EncodeField(op.value)
    ensures DecodeOp(s, pos) == Ok((op, pos + |EncodeOp(op)|))
  {
    var q := pos + 1 + |EncodeField(op.key)|;
    assert |EncodeOp(op)| == 1 + |EncodeField(op.key)| + |EncodeField(op.value)|;
    FieldRoundTrip(op.key, s, pos + 1);
    FieldRoundTrip(op.value, s, q);
  }

  /** A Put is read back with its value. */
  lemma PutRoundTrip(op: Op, s: seq<Byte>, pos: nat)
    requires op.status == 1 && |op.key| < ReadLimit && |op.value| < ReadLimit
    requires pos + |EncodeOp(op)| <= |s| && s[pos..pos + |EncodeOp(op)|] == EncodeOp(op)
    ensures DecodeOp(s, pos) == Ok((op, pos + |EncodeOp(op)|))
  {
    var k := EncodeField(op.key);
    var v := EncodeField(op.value);
    assert EncodeOp(op) == [op.status] + k + v;
    SplitOp(s, pos, op.status, k, v);
    DecodePutFields(s, pos, op);
  }

  /** Any other status is read back with the key alone: no value length is read. */
  lemma KeyOnlyRoundTrip(op: Op, s: seq<Byte>, pos: nat)
    requires op.status != 1 && op.value == [] && |op.key| < ReadLimit
    requires pos + |EncodeOp(op)| <= |s| && s[pos..pos + |EncodeOp(op)|] == EncodeOp(op)
    ensures DecodeOp(s, pos) == Ok((op, pos + |EncodeOp(op)|))
  {
    SplitOp(s, pos, op.status, EncodeField(op.key), []);
    FieldRoundTrip(op.key, s, pos + 1);
  }

  /** A key length `read` cannot take ends the segment with an error, whatever
      the status byte and whatever follows. */
  lemma OversizedKeyFails(s: seq<Byte>, pos: nat, st: Byte, keyLen: nat, rest: seq<Byte>)
    requires keyLen >= ReadLimit
    requires pos < |s| && s[pos..] == [st] + Varint.Encode(keyLen) + rest
    ensures DecodeOp(s, pos) == Err(OversizedRead)
  {
    assert [st] + Varint.Encode(keyLen) + rest == [st] + (Varint.Encode(keyLen) + rest);
    SplitRest(s, pos, [st], Varint.Encode(keyLen) + rest);
    OversizedField(s, pos + 1, keyLen, rest);
  }

  /** So does a Put's value length that `read` cannot take. */
  lemma OversizedValueFails(s: seq<Byte>, pos: nat, key: seq<Byte>, valLen: nat, rest: seq<Byte>)
    requires |key| < ReadLimit && valLen >= ReadLimit
    requires pos < |s| && s[pos..] == [1] + EncodeField(key) + Varint.Encode(valLen) + rest
    ensures DecodeOp(s, pos) == Err(OversizedRead)
  {
    PutStatusAt(s, pos, EncodeField(key), Varint.Encode(valLen), rest);
    FieldThenOversized(s, pos + 1, key, valLen, rest);
    ValueFieldFails(s, pos, key, pos + 1 + |EncodeField(key)|);
  }

  /** A Put's status byte, and the fields that follow it. */
  lemma PutStatusAt(s: seq<Byte>, pos: nat, f: seq<Byte>, e: seq<Byte>, rest: seq<Byte>)
    requires pos < |s| && s[pos..] == [1] + f + e + rest
    ensures s[pos] == 1 && s[pos + 1..] == f + (e + rest)
  {
    assert [1] + f + e + rest == [1] + (f + (e + rest));
    SplitRest(s, pos, [1], f + (e + rest));
    assert s[pos] == s[pos..pos + 1][0];
  }

  /** A field read back, then a length `read` cannot take right after it. */
  lemma FieldThenOversized(s: seq<Byte>, pos: nat, key: seq<Byte>, n: nat, rest: seq<Byte>)
    requires |key| < ReadLimit && n >= ReadLimit
    requires pos <= |s| && s[pos..] == EncodeField(key) + (Varint.Encode(n) + rest)
    ensures ReadField(s, pos) == Ok((key, pos + |EncodeField(key)|))
    ensures ReadField(s, pos + |EncodeField(key)|) == Err(OversizedRead)
  {
    SplitRest(s, pos, EncodeField(key), Varint.Encode(n) + rest);
    FieldRoundTrip(key, s, pos);
    OversizedField(s, pos + |EncodeField(key)|, n, rest);
  }

  /** A Put whose key reads and whose value length fails fails as a whole. */
  lemma ValueFieldFails(s: seq<Byte>, pos: nat, key: seq<Byte>, p1: nat)
    requires pos < |s| && s[pos] == 1
    requires ReadField(s, pos + 1) == Ok((key, p1)) && ReadField(s, p1) == Err(OversizedRead)
    ensures DecodeOp(s, pos) == Err(OversizedRead)
  {
  }

  /** One operation is read back exactly. */
  lemma OpRoundTrip(op: Op, s: seq<Byte>, pos: nat)
    requires Encodable(op)
    requires pos + |EncodeOp(op)| <= |s| && s[pos..pos + |EncodeOp(op)|] == EncodeOp(op)
    ensures DecodeOp(s, pos) == Ok((op, pos + |EncodeOp(op)|))
  {
    if op.status == 1 {
      PutRoundTrip(op, s, pos);
    } else {
      KeyOnlyRoundTrip(op, s, pos);
    }
  }

  /** The first of a run of encoded operations is read back, and the rest of the
      run is encoded right after it. */
  lemma OpsHead(ops: seq<Op>, s: seq<Byte>, pos: nat) returns (next: nat)
    requires ops != [] && Encodable(ops[0])
    requires pos <= |s| && s[pos..] == EncodeOps(ops)
    ensures pos < |s| && DecodeOp(s, pos) == Ok((ops[0], next))
    ensures next <= |s| && s[next..] == EncodeOps(ops[1..])
  {
    next := pos + |EncodeOp(ops[0])|;
    SplitRest(s, pos, EncodeOp(ops[0]), EncodeOps(ops[1..]));
    OpRoundTrip(ops[0], s, pos);
  }

  /** The operations read one after another from `pos` are `ops`, and they end
      exactly at the end of the stream. */
  ghost predicate DecodesTo(s: seq<Byte>, pos: nat, ops: seq<Op>)
    requires pos <= |s|
    decreases |ops|
  {
    if ops == [] then pos == |s|
    else
      pos < |s| && DecodeOp(s, pos).Ok? && DecodeOp(s, pos).value.0 == ops[0] &&
      DecodesTo(s, DecodeOp(s, pos).value.1, ops[1..])
  }

  /** Given enough count, the operation loop reads exactly the run `DecodesTo`
      describes. */
  lemma {:induction false} DecodeOpsRun(s: seq<Byte>, pos: nat, ops: seq<Op>, n: nat, acc: seq<Op>)
    requires pos <= |s| && DecodesTo(s, pos, ops) && |ops| <= n
    ensures DecodeOps(s, pos, n, acc) == Ok((acc + ops, |s|))
    decreases |ops|
  {
    if ops == [] {
      assert acc + ops == acc;
    } else {
      assert acc + [ops[0]] + ops[1..] == acc + ops;
      DecodeOpsRun(s, DecodeOp(s, pos).value.1, ops[1..], n - 1, acc + [ops[0]]);
    }
  }

  /** A stream holding the encodings of `ops` back to back reads back as `ops`. */
  lemma {:induction false} EncodedDecodes(ops: seq<Op>, s: seq<Byte>, pos: nat)
    requires forall i | 0 <= i < |ops| :: Encodable(ops[i])
    requires pos <= |s| && s[pos..] == EncodeOps(ops)
    ensures DecodesTo(s, pos, ops)
    decreases |ops|
  {
    if ops != [] {
      var next := OpsHead(ops, s, pos);
      EncodedDecodes(ops[1..], s, next);
    }
  }

  /** A run of encoded operations is read back in order, and a count larger than
      the run stops at the end of the stream without error. */
  lemma OpsRoundTrip(ops: seq<Op>, n: nat)
    requires forall i | 0 <= i < |ops| :: Encodable(ops[i])
    requires |ops| <= n
    ensures DecodeOps(EncodeOps(ops), 0, n, []) == Ok((ops, |EncodeOps(ops)|))
  {
    var s := EncodeOps(ops);
    assert s[0..] == s && [] + ops == ops;
    EncodedDecodes(ops, s, 0);
    DecodeOpsRun(s, 0, ops, n, []);
  }

  /** The operations of one record update the dictionary in order, and the
      sequence number and the count left move on by the number of operations. */
  lemma RunOpsRoundTrip(ops: seq<Op>, count: nat, seqNo: nat, kv: Table)
    requires forall i | 0 <= i < |ops| :: Encodable(ops[i])
    requires |ops| <= count
    ensures RunOps(EncodeOps(ops), count, seqNo, kv).Ok?
    ensures RunOps(EncodeOps(ops), count, seqNo, kv).value.0 == Apply(kv, ops, seqNo)
    ensures RunOps(EncodeOps(ops), count, seqNo, kv).value.1 == Batch(seqNo + |ops|, CountAfter(count, |ops|))
  {
    OpsRoundTrip(ops, count);
    RunOpsOf(EncodeOps(ops), count, seqNo, kv, ops);
  }

  /** `RunOps` over a stream whose operations are known. */
  lemma RunOpsOf(stream: seq<Byte>, count: nat, seqNo: nat, kv: Table, ops: seq<Op>)
    requires DecodeOps(stream, 0, count, []) == Ok((ops, |stream|))
    ensures RunOps(stream, count, seqNo, kv).Ok?
    ensures RunOps(stream, count, seqNo, kv).value.0 == Apply(kv, ops, seqNo)
    ensures RunOps(stream, count, seqNo, kv).value.1 == Batch(seqNo + |ops|, CountAfter(count, |ops|))
  {
  }

  /** One step of `LogFrom` over a batch-start record whose header and operations
      are known. */
  lemma StartRecordAt(data: seq<Byte>, idx: nat, kv: Table, batch: Option<Batch>,
                      kind: Byte, payload: seq<Byte>, next: nat,
                      seqNo: nat, count: nat, kv': Table, batch': Batch)
    requires idx < |data| && ReadFrame(data, idx) == Some(Frame(kind, payload, next))
    requires kind == 1 || kind == 2
    requires BatchHeader(payload) == Batch(seqNo, count)
    requires var r := RunOps(Slice(payload, 12, |payload|), count, seqNo, kv);
      r.Ok? && r.value.0 == kv' && r.value.1 == batch'
    ensures LogFrom(data, idx, kv, batch) == LogFrom(data, next, kv', Some(batch'))
  {
  }

  /** One step of `LogFrom` over a continuation record whose operations are known. */
  lemma ContinuationAt(data: seq<Byte>, idx: nat, kv: Table, kind: Byte, payload: seq<Byte>, next: nat,
                       seqNo: nat, count: nat, kv': Table, batch': Batch)
    requires idx < |data| && ReadFrame(data, idx) == Some(Frame(kind, payload, next))
    requires kind != 1 && kind != 2
    requires var r := RunOps(payload, count, seqNo, kv);
      r.Ok? && r.value.0 == kv' && r.value.1 == batch'
    ensures LogFrom(data, idx, kv, Some(Batch(seqNo, count))) == LogFrom(data, next, kv', Some(batch'))
  {
  }

  /** After a run of operations, the key of the i-th holds that operation's
      entry, numbered `base + i`, unless a later operation has the same key. */
  lemma {:induction false} ApplyLast(kv: Table, ops: seq<Op>, base: nat, i: nat)
    requires i < |ops|
    requires forall j | i < j < |ops| :: ops[j].key != ops[i].key
    ensures ops[i].key in Apply(kv, ops, base).vals
    ensures Apply(kv, ops, base).vals[ops[i].key] == Entry(ops[i].status, base + i, ops[i].value)
    decreases |ops|
  {
    if i < |ops| - 1 {
      var init := ops[..|ops| - 1];
      ApplyLast(kv, init, base, i);
    }
  }

  /** A key no operation touches keeps its entry, or its absence. */
  lemma {:induction false} ApplyUntouched(kv: Table, ops: seq<Op>, base: nat, k: Key)
    requires forall j | 0 <= j < |ops| :: ops[j].key != k
    ensures k in Apply(kv, ops, base).vals <==> k in kv.vals
    ensures k in kv.vals ==> Apply(kv, ops, base).vals[k] == kv.vals[k]
    decreases |ops|
  {
    if ops != [] {
      ApplyUntouched(kv, ops[..|ops| - 1], base, k);
    }
  }

  /** A batch-start record (type 1 or 2): its operations are numbered from the
      sequence base in the header, and the record hands on the next number and
      the count that is left. */
  lemma StartRecordStep(data: seq<Byte>, idx: nat, kv: Table, batch: Option<Batch>,
                        crc: seq<Byte>, kind: Byte, seqNo: nat, count: nat, ops: seq<Op>)
    requires kind == 1 || kind == 2
    requires |crc| == 4 && seqNo < Pow256(8) && count < Pow256(4) && |ops| <= count
    requires forall i | 0 <= i < |ops| :: Encodable(ops[i])
    requires |BatchPayload(seqNo, count, ops)| < 65536
    requires var e := EncodeFrame(crc, kind, BatchPayload(seqNo, count, ops));
      idx + |e| <= |data| && data[idx..idx + |e|] == e
    ensures LogFrom(data, idx, kv, batch) ==
      LogFrom(data, idx + 7 + |BatchPayload(seqNo, count, ops)|, Apply(kv, ops, seqNo),
              Some(Batch(seqNo + |ops|, CountAfter(count, |ops|))))
  {
    var p := BatchPayload(seqNo, count, ops);
    FrameRoundTrip(data, idx, crc, kind, p);
    BatchHeaderRoundTrip(seqNo, count, ops);
    RunOpsRoundTrip(ops, count, seqNo, kv);
    StartRecordAt(data, idx, kv, batch, kind, p, idx + 7 + |p|, seqNo, count,
                  Apply(kv, ops, seqNo), Batch(seqNo + |ops|, CountAfter(count, |ops|)));
  }

  /** A continuation record (any other type) decodes its operations with the
      sequence number and count left by the record before it. */
  lemma ContinuationStep(data: seq<Byte>, idx: nat, kv: Table, seqNo: nat, count: nat,
                         crc: seq<Byte>, kind: Byte, ops: seq<Op>)
    requires kind != 1 && kind != 2
    requires |crc| == 4 && |ops| <= count
    requires forall i | 0 <= i < |ops| :: Encodable(ops[i])
    requires |EncodeOps(ops)| < 65536
    requires var e := EncodeFrame(crc, kind, EncodeOps(ops));
      idx + |e| <= |data| && data[idx..idx + |e|] == e
    ensures LogFrom(data, idx, kv, Some(Batch(seqNo, count))) ==
      LogFrom(data, idx + 7 + |EncodeOps(ops)|, Apply(kv, ops, seqNo),
              Some(Batch(seqNo + |ops|, CountAfter(count, |ops|))))
  {
    var p := EncodeOps(ops);
    FrameRoundTrip(data, idx, crc, kind, p);
    RunOpsRoundTrip(ops, count, seqNo, kv);
    ContinuationAt(data, idx, kv, kind, p, idx + 7 + |p|, seqNo, count,
                   Apply(kv, ops, seqNo), Batch(seqNo + |ops|, CountAfter(count, |ops|)));
  }

  /** A segment holding one batch decodes to that batch's operations, numbered
      from its sequence base. */
  lemma SingleBatchSegment(crc: seq<Byte>, kind: Byte, seqNo: nat, count: nat, ops: seq<Op>)
    requires kind == 1 || kind == 2
    requires |crc| == 4 && seqNo < Pow256(8) && count < Pow256(4) && |ops| <= count
    requires forall i | 0 <= i < |ops| :: Encodable(ops[i])
    requires |BatchPayload(seqNo, count, ops)| < 65536
    ensures ParseLog(EncodeFrame(crc, kind, BatchPayload(seqNo, count, ops))) == Ok(Apply(Empty(), ops, seqNo))
  {
    var data := EncodeFrame(crc, kind, BatchPayload(seqNo, count, ops));
    assert data[0..|data|] == data;
    StartRecordStep(data, 0, Empty(), None, crc, kind, seqNo, count, ops);
  }
}
