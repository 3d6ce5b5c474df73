/** Fixed record layout: field sizes, running byte offsets, and the byte codec
    that turns a record into its `size_of::<Type>()` bytes and back.
    A field's value is the raw bytes of that field (a `Pod` struct has no
    padding, so the record size is the sum of its field sizes). */
module Layout {

  newtype byte = b: int | 0 <= b < 256

  type Bytes = seq<byte>

  /** A record: one byte string per field, in declaration order. */
  type Record = seq<Bytes>

  /** A named field of the record struct, with the byte size of its type. */
  datatype Field = Field(name: string, size: nat)

  function Sizes(fields: seq<Field>): (sizes: seq<nat>)
    ensures |sizes| == |fields|
    ensures forall k :: 0 <= k < |fields| ==> sizes[k] == fields[k].size
  {
    if fields == [] then [] else Sizes(fields[..|fields| - 1]) + [fields[|fields| - 1].size]
  }

  function Sum(sizes: seq<nat>): nat
  {
    if sizes == [] then 0 else Sum(sizes[..|sizes| - 1]) + sizes[|sizes| - 1]
  }

  /** size_of::<Type>() */
  function RecordSize(sizes: seq<nat>): nat
  {
    Sum(sizes)
  }

  /** Byte offset of field k: the sizes of the fields before it, added up from 0. */
  function Offset(sizes: seq<nat>, k: nat): nat
    requires k <= |sizes|
  {
    Sum(sizes[..k])
  }

  /** Each field's range ends where the next one begins. */
  lemma OffsetStep(sizes: seq<nat>, k: nat)
    requires k < |sizes|
    ensures Offset(sizes, k + 1) == Offset(sizes, k) + sizes[k]
  {
    assert sizes[..k + 1][..k] == sizes[..k];
  }

  /** The offsets start at 0 and the last one is the record size. */
  lemma OffsetEnds(sizes: seq<nat>)
    ensures Offset(sizes, 0) == 0
    ensures Offset(sizes, |sizes|) == RecordSize(sizes)
  {
    assert sizes[..|sizes|] == sizes;
  }

  /** The field byte ranges do not overlap: a field ends no later than any
      later field starts. */
  lemma {:induction false} FieldRangesTile(sizes: seq<nat>, j: nat, k: nat)
    requires j < k <= |sizes|
    ensures Offset(sizes, j) + sizes[j] <= Offset(sizes, k)
  {
    if j + 1 == k {
      OffsetStep(sizes, j);
    } else {
      FieldRangesTile(sizes, j, k - 1);
      OffsetStep(sizes, k - 1);
    }
  }

  /** The generator's running offset: it starts at 0 and each field adds its
      size to it after recording where that field starts. */
  method FieldOffsets(sizes: seq<nat>) returns (offsets: seq<nat>)
    ensures |offsets| == |sizes|
    ensures |sizes| > 0 ==> offsets[0] == 0
    ensures forall k :: 0 <= k < |sizes| - 1 ==> offsets[k + 1] == offsets[k] + sizes[k]
    ensures forall k :: 0 <= k < |sizes| ==> offsets[k] == Offset(sizes, k)
  {
    var offset := 0;
    offsets := [];
    for k := 0 to |sizes|
      invariant |offsets| == k
      invariant offset == Offset(sizes, k)
      invariant forall j :: 0 <= j < k ==> offsets[j] == Offset(sizes, j)
    {
      offsets := offsets + [offset];
      OffsetStep(sizes, k);
      offset := offset + sizes[k];
    }
    forall k | 0 <= k < |sizes| - 1
      ensures offsets[k + 1] == offsets[k] + sizes[k]
    {
      OffsetStep(sizes, k);
    }
  }

  /** Each field holds exactly as many bytes as its type's size. */
  predicate WellFormed(sizes: seq<nat>, r: Record)
  {
    |r| == |sizes| && forall k :: 0 <= k < |r| ==> |r[k]| == sizes[k]
  }

  /** bytemuck::bytes_of: the fields' bytes laid end to end. */
  function Encode(r: Record): Bytes
  {
    if r == [] then [] else Encode(r[..|r| - 1]) + r[|r| - 1]
  }

  /** bytemuck::from_bytes: cut a record-sized buffer at the field offsets. */
  function Decode(sizes: seq<nat>, b: Bytes): (r: Record)
    requires |b| == RecordSize(sizes)
    ensures WellFormed(sizes, r)
  {
    if sizes == [] then []
    else
      var n := |sizes| - 1;
      Decode(sizes[..n], b[..|b| - sizes[n]]) + [b[|b| - sizes[n]..]]
  }

  lemma {:induction false} EncodeAppend(a: Record, b: Record)
    ensures Encode(a + b) == Encode(a) + Encode(b)
  {
    if b != [] {
      var n := |b| - 1;
      assert (a + b)[..|a + b| - 1] == a + b[..n];
      EncodeAppend(a, b[..n]);
    } else {
      assert a + b == a;
    }
  }

  lemma {:induction false} EncodeLength(sizes: seq<nat>, r: Record)
    requires WellFormed(sizes, r)
    ensures |Encode(r)| == RecordSize(sizes)
  {
    if r != [] {
      var n := |r| - 1;
      EncodeLength(sizes[..n], r[..n]);
    }
  }

  /** Decoding the bytes of a record gives the record back. */
  lemma {:induction false} DecodeEncode(sizes: seq<nat>, r: Record)
    requires WellFormed(sizes, r)
    ensures |Encode(r)| == RecordSize(sizes)
    ensures Decode(sizes, Encode(r)) == r
  {
    EncodeLength(sizes, r);
    if r != [] {
      var n := |r| - 1;
      EncodeLength(sizes[..n], r[..n]);
      DecodeEncode(sizes[..n], r[..n]);
      var e := Encode(r);
      assert e[..|e| - sizes[n]] == Encode(r[..n]);
      assert e[|e| - sizes[n]..] == r[n];
    }
  }

  /** Encoding a decoded buffer gives the buffer back. */
  lemma {:induction false} EncodeDecode(sizes: seq<nat>, b: Bytes)
    requires |b| == RecordSize(sizes)
    ensures Encode(Decode(sizes, b)) == b
  {
    if sizes != [] {
      var n := |sizes| - 1;
      var r := Decode(sizes, b);
      EncodeDecode(sizes[..n], b[..|b| - sizes[n]]);
      assert r[..|r| - 1] == Decode(sizes[..n], b[..|b| - sizes[n]]);
    }
  }

  /** A record's bytes split around field k: the fields before it take exactly
      Offset(k) bytes, then come the field's own bytes, then the rest. */
  lemma FieldSplit(sizes: seq<nat>, r: Record, k: nat)
    requires WellFormed(sizes, r) && k < |r|
    ensures Encode(r) == Encode(r[..k]) + r[k] + Encode(r[k + 1..])
    ensures |Encode(r[..k])| == Offset(sizes, k)
  {
    assert r == r[..k] + [r[k]] + r[k + 1..];
    EncodeAppend(r[..k] + [r[k]], r[k + 1..]);
    EncodeAppend(r[..k], [r[k]]);
    assert [r[k]][..0] == [];
    EncodeLength(sizes[..k], r[..k]);
  }

  /** Field k of a record occupies bytes [Offset(k), Offset(k) + size_k) of its encoding. */
  lemma FieldBytes(sizes: seq<nat>, r: Record, k: nat)
    requires WellFormed(sizes, r) && k < |r|
    ensures Offset(sizes, k) + sizes[k] <= |Encode(r)|
    ensures Encode(r)[Offset(sizes, k)..Offset(sizes, k) + sizes[k]] == r[k]
  {
    FieldSplit(sizes, r, k);
  }

  /** Overwriting bytes [Offset(k), Offset(k) + size_k) of a record's encoding with
      a new value is the same as encoding the record with field k replaced. */
  lemma FieldSplice(sizes: seq<nat>, r: Record, k: nat, v: Bytes)
    requires WellFormed(sizes, r) && k < |r| && |v| == sizes[k]
    ensures Offset(sizes, k) + sizes[k] <= |Encode(r)|
    ensures Encode(r)[..Offset(sizes, k)] + v + Encode(r)[Offset(sizes, k) + sizes[k]..]
            == Encode(r[k := v])
  {
    var r' := r[k := v];
    FieldSplit(sizes, r, k);
    FieldSplit(sizes, r', k);
    assert r'[..k] == r[..k] && r'[k + 1..] == r[k + 1..];
    var e := Encode(r);
    var off := Offset(sizes, k);
    assert e[..off] == Encode(r[..k]);
    assert e[off + sizes[k]..] == Encode(r[k + 1..]);
  }

  /** The record whose encoding has bytes [Offset(k), Offset(k) + size_k)
      replaced by v, as the generated patch methods compute it through the
      record's byte view. */
  function SpliceField(sizes: seq<nat>, r: Record, k: nat, v: Bytes): (r': Record)
    requires WellFormed(sizes, r) && k < |r| && |v| == sizes[k]
    ensures r' == r[k := v]
  {
    SpliceIsFieldUpdate(sizes, r, k, v);
    var bytes := Encode(r);
    var off := Offset(sizes, k);
    Decode(sizes, bytes[..off] + v + bytes[off + sizes[k]..])
  }

  /** Splicing a new value into bytes [Offset(k), Offset(k) + size_k) of a
      record's encoding and decoding the result changes field k and no other. */
  lemma SpliceIsFieldUpdate(sizes: seq<nat>, r: Record, k: nat, v: Bytes)
    requires WellFormed(sizes, r) && k < |r| && |v| == sizes[k]
    ensures Offset(sizes, k) + sizes[k] <= |Encode(r)| == RecordSize(sizes)
    ensures var bytes := Encode(r);
      |bytes[..Offset(sizes, k)] + v + bytes[Offset(sizes, k) + sizes[k]..]| == RecordSize(sizes)
    ensures var bytes := Encode(r);
      Decode(sizes, bytes[..Offset(sizes, k)] + v + bytes[Offset(sizes, k) + sizes[k]..]) == r[k := v]
  {
    FieldSplice(sizes, r, k, v);
    DecodeEncode(sizes, r[k := v]);
  }
}
