/** The `DataBase` struct: the file of fixed-size records, the in-memory
    mirror `vec` and the generated index, updated together by `write`,
    `change` and the generated `change_<field>` methods. */
module Store {

  import opened Layout
  import opened Index
  import opened StoreSpec

  datatype StoreError = CorruptRecord(trailing: nat)

  datatype Result<T> = Ok(value: T) | Err(error: StoreError)

  class DataBase {
    const schema: Schema
    /** Byte offset of each field, as the generated methods have them. */
    const offsets: seq<nat>
    const indexing: Indexing
    var file: Bytes
    var vec: seq<Record>

    ghost function State(): Snapshot
      reads this, indexing
    {
      Snapshot(file, vec, indexing.maps)
    }

    ghost predicate Valid()
      reads this, indexing
    {
      && indexing.Valid()
      && indexing.fields == schema.indexed
      && indexing.arity == |schema.sizes|
      && |offsets| == |schema.sizes|
      && (forall k :: 0 <= k < |offsets| ==> offsets[k] == Offset(schema.sizes, k))
      && Coherent(schema, State())
    }

    /** `DataBase { file, vec, indexing }`: a store over these parts, with
        the schema and field offsets the struct's fields fix. */
    constructor Assemble(fields: seq<Field>, indexNames: set<string>, file: Bytes, vec: seq<Record>, indexing: Indexing)
      requires indexing.Valid() && indexing.fields == Describe(fields, indexNames).indexed
      requires indexing.arity == |fields|
      requires Coherent(Describe(fields, indexNames), Snapshot(file, vec, indexing.maps))
      ensures Valid()
      ensures schema == Describe(fields, indexNames)
      ensures this.file == file && this.vec == vec && this.indexing == indexing
    {
      var sch := Describe(fields, indexNames);
      var offs := FieldOffsets(sch.sizes);
      schema := sch;
      offsets := offs;
      this.indexing := indexing;
      this.file := file;
      this.vec := vec;
    }

    /** `new_or_open`: a missing file is created empty; an existing file's
        bytes are cut into records, each added to the index under its
        position and pushed onto the mirror. A file whose length is not a
        whole number of records is refused with `CorruptRecord`. */
    static method NewOrOpen(fields: seq<Field>, indexNames: set<string>, pathExists: bool, contents: Bytes)
      returns (r: Result<DataBase>)
      requires pathExists ==> RecordSize(Sizes(fields)) > 0
      ensures r.Err? <==> pathExists && Remainder(contents, RecordSize(Sizes(fields))) != []
      ensures r.Err? ==> r.error == CorruptRecord(|Remainder(contents, RecordSize(Sizes(fields)))|)
      ensures r.Ok? ==> && fresh(r.value) && fresh(r.value.indexing) && r.value.Valid()
                        && r.value.schema == Describe(fields, indexNames)
      ensures r.Ok? && !pathExists ==>
                && r.value.file == [] && r.value.vec == []
                && r.value.indexing.maps == EmptyMaps(r.value.schema.indexed)
      ensures r.Ok? && pathExists ==>
                && r.value.file == contents
                && r.value.vec == DecodeRows(r.value.schema.sizes, contents)
                && r.value.indexing.maps == Replay(r.value.schema.indexed, r.value.vec)
    {
      var sch := Describe(fields, indexNames);
      var file: Bytes := [];
      var vec: seq<Record> := [];
      var indexing := new Indexing.Default(sch.indexed, |fields|);
      if pathExists {
        var size := RecordSize(sch.sizes);
        var rest := Remainder(contents, size);
        if rest != [] {
          return Err(CorruptRecord(|rest|));
        }
        file := contents;
        var chunks := ChunksExact(contents, size);
        ghost var rows := DecodeRows(sch.sizes, contents);
        assert |rows| == |chunks|;
        for index := 0 to |chunks|
          invariant indexing.Valid() && indexing.fields == sch.indexed && indexing.arity == |fields|
          invariant vec == rows[..index]
          invariant indexing.maps == Replay(sch.indexed, vec)
        {
          RowOfChunk(sch.sizes, contents, index);
          var elem := Decode(sch.sizes, chunks[index]);
          ReplayExtend(sch, rows, index);
          indexing.Add(elem, index);
          vec := vec + [elem];
        }
        assert vec == rows;
        OpenedCoherent(sch, contents);
      } else {
        EmptyCoherent(sch);
      }
      var db := new DataBase.Assemble(fields, indexNames, file, vec, indexing);
      return Ok(db);
    }

    /** `write`: seek to the end of the file, append the record's bytes, add
        it to the index under row `vec.len()`, push it onto the mirror. */
    method Write(elem: Record)
      requires Valid() && WellFormed(schema.sizes, elem)
      modifies this, indexing
      ensures Valid()
      ensures State() == WriteStep(schema, old(State()), elem)
    {
      file := WriteAt(file, |file|, Encode(elem));
      indexing.Add(elem, |vec|);
      vec := vec + [elem];
      WriteStepCoherent(schema, old(State()), elem);
    }

    /** `change`: overwrite row `index`'s bytes, remove the old record from the
        index, add the new one, replace the mirror entry. The row must exist. */
    method Change(elem: Record, index: nat)
      requires Valid() && WellFormed(schema.sizes, elem) && index < |vec|
      modifies this, indexing
      ensures Valid()
      ensures State() == ChangeStep(schema, old(State()), elem, index)
    {
      ChangeStepCoherent(schema, State(), elem, index);
      RowBytes(schema, State(), index);
      var pos := RecordSize(schema.sizes) * index;
      RowStartIsProduct(RecordSize(schema.sizes), index);
      file := WriteAt(file, pos, Encode(elem));
      indexing.Remove(vec[index], index);
      indexing.Add(elem, index);
      vec := vec[index := elem];
    }

    /** The generated `change_<field k>`: return at once when the field
        already holds the value; otherwise write the value's bytes at the
        field's place in the row, move the row between value sets for an
        indexed field, and splice the same bytes into the mirror's record. */
    method PatchField(k: nat, value: Bytes, index: nat)
      requires Valid() && k < |schema.sizes| && |value| == schema.sizes[k] && index < |vec|
      modifies this, indexing
      ensures Valid()
      ensures State() == PatchStep(schema, old(State()), k, value, index)
      ensures old(vec[index][k]) == value ==> State() == old(State())
    {
      var oldValue := vec[index][k];
      if oldValue == value {
        return;
      }
      ghost var s := State();
      ghost var t := PatchStep(schema, s, k, value, index);
      assert offsets[k] == Offset(schema.sizes, k);
      FieldInFile(schema.sizes, vec, k, index);
      var pos := RecordSize(schema.sizes) * index + offsets[k];
      RowStartIsProduct(RecordSize(schema.sizes), index);
      file := WriteAt(file, pos, value);
      assert file == t.file;
      if k in schema.indexed {
        indexing.maps := indexing.maps[k := Insert(Erase(indexing.maps[k], oldValue, index), value, index)];
      }
      assert indexing.maps == t.maps;
      vec := vec[index := SpliceField(schema.sizes, vec[index], k, value)];
      assert vec == t.vec;
      PatchStepCoherent(schema, s, k, value, index);
    }
  }
}
