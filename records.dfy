/** The reader's key/value records and its dictionaries. */
module Records {
  import opened Bytes

  type Key = seq<Byte>

  /** The `[status, seq, value]` list the reader stores per key; `status` 1 is a
      Put, anything else is kept as read. */
  datatype Entry = Entry(status: Byte, seqNo: nat, value: seq<Byte>)

  /** No key occurs twice in `s`. */
  ghost predicate Distinct(s: seq<Key>)
  {
    forall i, j | 0 <= i < j < |s| :: s[i] != s[j]
  }

  /** A Python `dict`: its values, and its keys in first-insertion order, which is
      the order a `for k in d` loop visits them. */
  datatype Dict<V> = Dict(keys: seq<Key>, vals: map<Key, V>) {

    ghost predicate Valid() {
      Distinct(keys) && forall k :: k in vals <==> k in keys
    }

    /** `d[k] = v`: a new key goes last, an existing key keeps its place. */
    function Put(k: Key, v: V): (d: Dict<V>)
      ensures d.vals == vals[k := v]
    {
      if k in vals then Dict(keys, vals[k := v]) else Dict(keys + [k], vals[k := v])
    }
  }

  /** Every key listed has a value. */
  lemma KeyAt<V>(d: Dict<V>, i: nat)
    requires d.Valid() && i < |d.keys|
    ensures d.keys[i] in d.vals
  {
  }

  lemma PutValid<V>(d: Dict<V>, k: Key, v: V)
    requires d.Valid()
    ensures d.Put(k, v).Valid()
  {
    if k !in d.vals {
      assert (d.keys + [k])[..|d.keys|] == d.keys;
    }
  }

  /** Storing a key never drops or reorders the keys already held. */
  lemma PutKeeps<V>(d: Dict<V>, k: Key, v: V)
    ensures d.keys <= d.Put(k, v).keys
  {
  }

  function Empty<V>(): (d: Dict<V>)
    ensures d.Valid() && d.keys == [] && d.vals == map[]
  {
    Dict([], map[])
  }

  type Table = Dict<Entry>

  /** `for k in e: d[k] = e[k]` over the first `n` keys of `e`. */
  function Update<V>(d: Dict<V>, e: Dict<V>, n: nat): (r: Dict<V>)
    requires e.Valid() && n <= |e.keys|
    ensures d.keys <= r.keys
    decreases n
  {
    if n == 0 then d
    else
      KeyAt(e, n - 1);
      Update(d, e, n - 1).Put(e.keys[n - 1], e.vals[e.keys[n - 1]])
  }

  lemma {:induction false} UpdateValid<V>(d: Dict<V>, e: Dict<V>, n: nat)
    requires d.Valid() && e.Valid() && n <= |e.keys|
    ensures Update(d, e, n).Valid()
    decreases n
  {
    if n > 0 {
      UpdateValid(d, e, n - 1);
      KeyAt(e, n - 1);
      PutValid(Update(d, e, n - 1), e.keys[n - 1], e.vals[e.keys[n - 1]]);
    }
  }

  /** The copy loop `for k in e: d[k] = e[k]`, run to the end of `e`. */
  method CopyInto<V>(d: Dict<V>, e: Dict<V>) returns (r: Dict<V>)
    requires e.Valid()
    ensures r == Update(d, e, |e.keys|)
    ensures d.Valid() ==> r.Valid()
  {
    r := d;
    var i := 0;
    while i < |e.keys|
      invariant i <= |e.keys| && r == Update(d, e, i)
    {
      KeyAt(e, i);
      r := r.Put(e.keys[i], e.vals[e.keys[i]]);
      i := i + 1;
    }
    if d.Valid() {
      UpdateValid(d, e, |e.keys|);
    }
  }

  /** Copying all of `e` into `d` is the right-biased map union: a key of `e`
      overwrites the same key of `d`, and nothing else changes. */
  lemma UpdateIsUnion<V>(d: Dict<V>, e: Dict<V>)
    requires e.Valid()
    ensures Update(d, e, |e.keys|).vals == d.vals + e.vals
  {
    assert e.keys[..|e.keys|] == e.keys;
    forall k
      ensures k in Update(d, e, |e.keys|).vals <==> k in (d.vals + e.vals)
      ensures k in (d.vals + e.vals) ==> Update(d, e, |e.keys|).vals[k] == (d.vals + e.vals)[k]
    {
      UpdateAt(d, e, |e.keys|, k);
    }
  }

  /** What the first `n` copies do to one key `k`. */
  lemma {:induction false} UpdateAt<V>(d: Dict<V>, e: Dict<V>, n: nat, k: Key)
    requires e.Valid() && n <= |e.keys|
    ensures k in Update(d, e, n).vals <==> k in d.vals || k in e.keys[..n]
    ensures k in e.keys[..n] ==> k in e.vals && Update(d, e, n).vals[k] == e.vals[k]
    ensures k in d.vals && k !in e.keys[..n] ==> Update(d, e, n).vals[k] == d.vals[k]
    decreases n
  {
    if n > 0 {
      KeyAt(e, n - 1);
      UpdateAt(d, e, n - 1, k);
      assert e.keys[..n] == e.keys[..n - 1] + [e.keys[n - 1]];
    }
  }
}
