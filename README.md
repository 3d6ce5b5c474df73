# simple-db: a flat-file record store with a generated secondary index

This project models the record store of `simple-db` and the code its two
derive macros generate. It has three parts.

- **The store** (`DataBase`) keeps three things in step:
  - a headerless file of fixed-size records;
  - an in-memory mirror `vec` of those records;
  - a secondary index.

  `new_or_open` cuts an existing file into record-sized chunks and replays
  them into the mirror and the index. `write` appends a record, and its row
  number is the old `vec.len()`. `change` overwrites the whole record at
  byte `R*index`, where `R` is the record size.
- **The generated index** (`Indexing<T>`) holds one map per field named in
  `#[index_fields(...)]`. Each map goes from a field value to the set of rows
  that hold it. `add` inserts a row under each indexed field's value. `remove`
  takes the row out again and drops a key whose set becomes empty.
- **The generated `change_<field>` methods** patch one field of one row:
  - They return at once when the value is unchanged.
  - Otherwise they write the field's bytes at `R*index + offset`, where
    `offset` is the running sum of the sizes of the earlier fields.
  - They splice the same bytes into the mirror's record.
  - For an indexed field only, they move the row from the old value's set to
    the new value's.

How the model represents these:
- A schema is the list of field sizes together with the positions of the
  indexed fields.
- A record is one byte string per field, and its bytes (`Encode`) are those
  strings laid end to end.
- The file is a byte sequence.
- The index is a map from field position to a map from value to a set of rows.

Files and modules:
- `layout.dfy` (`Layout`): field offsets, and the codec between a record and
  its bytes.
- `attributes.dfy` (`Attributes`): the two readers of `#[index_fields(...)]`,
  and which field positions are indexed.
- `index.dfy` (`Index`):
  - the per-field map operations;
  - the class `Indexing`, with `Default`, `Add` and `Remove`;
  - the reference meaning of an index: the rows whose field `f` holds `v`.
- `store_spec.dfy` (`StoreSpec`):
  - the store as values (`Snapshot`), with one function per operation;
  - the invariant `Coherent`: the file is the mirror's records back to back,
    and every field map indexes the mirror exactly with no empty set kept;
  - the lemmas that every operation keeps it.
- `store.dfy` (`Store`): the class `DataBase`. Its methods change `file`,
  `vec` and the index in place. Each one is proved to end in the state its
  step function gives, and to keep `Coherent`.

## Model

| member | source | states |
|---|---|---|
| Layout.FieldOffsets | simple-db-macros/src/field_methods.rs:54-60 | The running offset starts at 0 and grows by each field's size. Field k's offset is the sum of the sizes before it. |
| Layout.OffsetEnds | simple-db-macros/src/field_methods.rs:32-60 | The first field starts at byte 0 and the last field ends at the record size. |
| Layout.OffsetStep | simple-db-macros/src/field_methods.rs:54-60 | Each field's byte range ends exactly where the next field's begins. |
| Layout.FieldRangesTile | simple-db-macros/src/field_methods.rs:54-60 | Field ranges do not overlap: a field ends no later than any later field starts. |
| Layout.EncodeLength | simple-db/src/lib.rs:60 | `bytes_of` on a well-formed record gives exactly `size_of` (the record size) bytes. |
| Layout.DecodeEncode | simple-db/src/lib.rs:39-40 | Decoding a record's bytes gives the record back. |
| Layout.EncodeDecode | simple-db/src/lib.rs:39-40 | Encoding a decoded record-sized chunk gives the chunk back. |
| Layout.FieldBytes | simple-db-macros/src/field_methods.rs:92-93 | Field k of a record is bytes [Offset(k), Offset(k) + size_k) of its encoding. |
| Layout.SpliceIsFieldUpdate | simple-db-macros/src/field_methods.rs:92-93 | Copying a value over bytes [offset, offset + size) of the record's byte view, then reading the record back, changes field k to the value and no other field. |
| Layout.SpliceField | simple-db-macros/src/field_methods.rs:92-93 | The record after the byte splice is the old record with only field k replaced. |
| Attributes.ParseIndexFields | simple-db-macros/src/field_methods.rs:6-24 | A name is in the returned set exactly when some `index_fields(...)` list attribute lists it as a bare identifier. Repeats collapse. |
| Attributes.CollectIndexNames | simple-db-macros/src/lib.rs:32-45 | The pushed list contains exactly the same names as `parse_index_fields` collects. |
| StoreSpec.ListedFieldsHaveMaps | simple-db-macros/src/lib.rs:55-58 | With the names `parse_index_fields` or the pushed list collects, field k of the struct has a map in the store's index (the one `new_or_open` builds, and every later one) exactly when an `index_fields(...)` attribute lists its name, and no other map exists. |
| StoreSpec.ListedFieldsMoveRows | simple-db-macros/src/field_methods.rs:63-125 | On a coherent store, `change_<field k>` with a new value changes the index exactly when field k's name is listed in an `index_fields(...)` attribute. |
| Index.InsertLookup | simple-db-macros/src/lib.rs:64-66 | `entry().or_insert().insert(row)` adds the row to the key's set, creating the set when absent. Every other key is untouched and no empty set appears. |
| Index.EraseLookup | simple-db-macros/src/lib.rs:68-77 | Remove takes the row out of the key's set and drops a set left empty along with its key. Other keys are untouched, and an absent key changes nothing. |
| Index.InsertThenErase | simple-db-macros/src/lib.rs:64-77 | Adding a row not yet under the key and then removing it restores the map exactly, thanks to the pruning. |
| Index.EraseThenInsert | simple-db-macros/src/lib.rs:64-77 | Removing a row stored under the key and adding it back restores the map exactly. |
| Index.AddRowIgnoresUnindexed | simple-db-macros/src/lib.rs:58-66 | Fields without a map play no part: records that agree on the indexed fields are added identically. |
| Index.AddThenRemoveRow | simple-db-macros/src/lib.rs:64-77 | `add(elem, row)` then `remove(elem, row)`, for a row under none of elem's values, restores the whole index. |
| Index.IndexesPush | simple-db/src/lib.rs:61-62 | Adding a pushed record under row `vec.len()` keeps a field map exact for the longer mirror. |
| Index.IndexesReplace | simple-db/src/lib.rs:69-71 | Removing row i under its old value and adding it under the new one keeps a field map exact once `vec[i]` is replaced. |
| Index.AddRowConsistent | simple-db/src/lib.rs:61-62 | `add(elem, vec.len())` followed by the push keeps every field map exact. |
| Index.ChangeRowConsistent | simple-db/src/lib.rs:69-71 | `remove(old)`, `add(new)` and the replacement of `vec[i]` keep every field map exact. |
| Index.RemoveAddSameRow | simple-db/src/lib.rs:69-70 | With an exact index, removing a row and adding it back with the same record leaves the index as it was. |
| Index.MoveFieldIsChange | simple-db-macros/src/field_methods.rs:84-90 | Moving the row in field k's map alone ends where removing and re-adding the whole record with field k set to v ends. |
| Index.ReplayConsistent | simple-db/src/lib.rs:39-43 | Adding rows 0, 1, … in order builds an exact index of the records. |
| Index.ConsistentIsReplay | simple-db/src/lib.rs:39-43 | Every exact index with the same fields equals the replayed one, so an index after any history equals the one rebuilt on reopening. |
| Index.Indexing.Default | simple-db-macros/src/lib.rs:84-88 | `#[derive(Default)]` gives one empty map per indexed field. |
| Index.Indexing.Add | simple-db-macros/src/lib.rs:64-66 | The per-field statements, run in field order, leave exactly `AddRow` of the old maps. |
| Index.Indexing.Remove | simple-db-macros/src/lib.rs:68-77 | The per-field statements, run in field order, leave exactly `RemoveRow` of the old maps. |
| StoreSpec.WriteAtBytes | simple-db/src/lib.rs:67-68 | Seeking to pos and writing data makes bytes [pos, pos + \|data\|) equal to data and keeps every other byte. |
| StoreSpec.AppendAtEnd | simple-db/src/lib.rs:59-60 | Seeking to `End(0)` and writing appends the data. |
| StoreSpec.RowStartIsProduct | simple-db/src/lib.rs:67 | Row i starts at byte `size_of * index`. |
| StoreSpec.ChunksExactSpec | simple-db/src/lib.rs:39 | `chunks_exact` returns as many whole R-byte pieces as fit, piece i being bytes [R*i, R*i + R). |
| StoreSpec.Remainder | simple-db/src/lib.rs:39 | The bytes `chunks_exact` leaves out number fewer than R, and there are none exactly when the whole pieces cover the file. |
| StoreSpec.DecodeRowsCount | simple-db/src/lib.rs:39-43 | Opening yields \|file\| / R rows, rounded down. |
| StoreSpec.RowOfChunk | simple-db/src/lib.rs:39-40 | Row i of the opened mirror is chunk i decoded, that is, the record in file bytes [R*i, R*i + R). |
| StoreSpec.EncodeAllLength | simple-db/src/lib.rs:59-60 | A file written row by row is R bytes per row long. |
| StoreSpec.RowBytes | simple-db/src/lib.rs:39-40 | In a store whose file holds its rows back to back, row i is file bytes [R*i, R*i + R), and they decode to `vec[i]`. |
| StoreSpec.EmptyCoherent | simple-db/src/lib.rs:44-50 | A freshly created store (empty file, empty mirror, default index) is coherent. |
| StoreSpec.WriteStepCoherent | simple-db/src/lib.rs:58-62 | `write` makes the file the old file plus the record's bytes, pushes the record at row `vec.len()`, and keeps the store coherent. |
| StoreSpec.ChangeStepBytes | simple-db/src/lib.rs:67-68 | `change` overwrites bytes [R*index, R*index + R) with the record's bytes. The file's length and every other byte are unchanged. |
| StoreSpec.ChangeStepCoherent | simple-db/src/lib.rs:66-71 | `change` replaces only `vec[index]` and keeps the store coherent. |
| StoreSpec.FieldInFile | simple-db-macros/src/field_methods.rs:81 | Field k of row index sits at file bytes [R*index + offset_k, R*index + offset_k + size_k). |
| StoreSpec.PatchStepFile | simple-db-macros/src/field_methods.rs:72-82 | The patch leaves the file holding the value at [R*index + offset, R*index + offset + size). The length and every other byte are unchanged, and an equal value leaves the file as it was. |
| StoreSpec.PatchStepMemory | simple-db-macros/src/field_methods.rs:107-126 | The patch replaces field k of `vec[index]` with the value and nothing else in the mirror. For a field without a map, the index is untouched. |
| StoreSpec.PatchStepMovesRow | simple-db-macros/src/field_methods.rs:84-90 | For an indexed field with a new value, the row joins the new value's set and is under no other value. Every other row stays where it was, no empty set is kept, and other fields' maps are untouched. |
| StoreSpec.PatchChangeMaps | simple-db-macros/src/field_methods.rs:84-90 | The patch's index update equals `change`'s remove-then-add of the whole record with field k replaced. |
| StoreSpec.PatchedFileIsChangedFile | simple-db-macros/src/field_methods.rs:81-82 | Writing the field's bytes at R*index + offset gives the same file as writing the whole record with that field replaced at R*index. |
| StoreSpec.PatchFileIsChangeFile | simple-db-macros/src/field_methods.rs:72-82 | With or without the early return, the patched file equals the file `change` writes for the record with field k replaced. |
| StoreSpec.PatchVecIsChangeVec | simple-db-macros/src/field_methods.rs:92-93 | The patched mirror equals the mirror `change` leaves for the record with field k replaced. |
| StoreSpec.PatchIsChange | simple-db-macros/src/field_methods.rs:70-96 | On a coherent store, `change_<field>(v, i)` ends in exactly the state that `change(vec[i] with the field set to v, i)` ends in. |
| StoreSpec.PatchStepCoherent | simple-db-macros/src/field_methods.rs:70-96 | The patch keeps the store coherent. |
| StoreSpec.Reopen | simple-db/src/lib.rs:34-43 | A coherent store's file has no leftover bytes, decodes to the mirror, and replays to the current index. |
| StoreSpec.DecodeRowsEncodeAll | simple-db/src/lib.rs:39-40 | A file written row by row opens to exactly those rows, with nothing left over. |
| StoreSpec.EncodeAllDecodeRows | simple-db/src/lib.rs:39-40 | A file of whole rows is the encoding of the rows it opens to. |
| StoreSpec.OpenedCoherent | simple-db/src/lib.rs:34-43 | Opening a file of whole rows gives a coherent store. |
| StoreSpec.OpenAsWritten | simple-db/src/lib.rs:34-43 | The open as the source performs it keeps the file's bytes and gives well-formed rows and a map per indexed field. |
| StoreSpec.OpenAsWrittenMisaligned | simple-db/src/lib.rs:39-43 | With trailing bytes, the opened store is not coherent: the file is longer than its rows. |
| StoreSpec.TrailingBytesCorruptNextWrite | simple-db/src/lib.rs:39 | After such an open, `write(e)` pushes e into the mirror. The row a reopen finds at e's position is not e unless the leftover bytes are a prefix of e's bytes. |
| StoreSpec.StrayRowDecodes | simple-db/src/lib.rs:59-60 | When the leftover bytes are not a prefix of the record's bytes, a record appended after them is read back as a different row. |
| Store.DataBase.Assemble | simple-db/src/lib.rs:52-56 | Building the struct from coherent parts gives a valid store holding those parts. |
| Store.DataBase.NewOrOpen | simple-db/src/lib.rs:27-57 | A missing file gives an empty store with the default index. An existing file of whole rows gives its bytes, its decoded rows and the replayed index. An existing file with leftover bytes gives `CorruptRecord` (see Findings). |
| Store.DataBase.Write | simple-db/src/lib.rs:58-65 | The new state is the write step, and the store stays valid. |
| Store.DataBase.Change | simple-db/src/lib.rs:66-74 | The new state is the change step, and the store stays valid. |
| Store.DataBase.PatchField | simple-db-macros/src/field_methods.rs:70-96 | The new state is the patch step, an unchanged value leaves the whole state as it was, and the store stays valid. |

## Left out

- Store.DataBase.NewOrOpen: refuses an existing file whose length is not a whole number of records, with `CorruptRecord`. The source instead drops the trailing bytes and opens the file. That behaviour is modelled separately by `StoreSpec.OpenAsWritten`, and the row under Findings records the difference.
- Store.DataBase.NewOrOpen: requires a non-zero record size when the file exists, because `chunks_exact(0)` panics.
- Store.DataBase.NewOrOpen: takes whether the path exists and the file's bytes as parameters. Creating, opening and reading the file are not modelled.
- Store.DataBase.Change: requires `index < vec.len()`. The source panics at the `unwrap` instead, after it has already written the record's bytes to the file. That partial write before the panic is not modelled.
- Store.DataBase.PatchField: requires `index < vec.len()`. The generated method panics at the `unwrap` before it writes anything.
- I/O errors from `seek`, `write_all`, `read_to_end` and `open` are not modelled. Every operation succeeds, so a failure part-way through, which has no rollback, is not captured.
- `size_of * index` is computed in `usize` and cast to `u64`. The model uses unbounded integers, so overflow of the seek position is not captured.
- Store.DataBase.PatchField: compares values by their bytes. The source uses the field type's `==`, which differs for floating-point fields (`NaN`, `-0.0`).
- `bytemuck` casting, native endianness and `repr(C)` layout are not modelled. A record's size is taken to be the sum of its field sizes, since a `Pod` struct has no padding. A field's value is its bytes.
- Proc-macro token generation is not modelled: `syn` parsing, `quote!`, `format_ident!`, the `ensure_repr_c` check, the trait declarations, and the panics for enums and tuple structs. The generated methods are modelled once, over a field position.
- The `IndexingTrait` trait is represented by the one class `Indexing`, since the store is only used with generated index structs.
- `HashMap` and `HashSet` hashing and iteration order are not modelled; they are plain maps and sets.
- The index generator's name list keeps repeats. Only membership in it is used (`contains`), so the model stores the names as a set.

## Findings

| source | as written | input that shows it | evidently intended | confidence | as-written member | corrected member |
|---|---|---|---|---|---|---|
| simple-db/src/lib.rs:39 | `chunks_exact` silently drops a trailing partial record. The store opens with the stray bytes still in the file, and the next `write` appends after them (line 59). | With a record size R >= 2, a file of R + 1 bytes: one whole record, plus one byte that differs from the first byte of the next record written. After `write(e)`, a reopen reads a row at e's position made of the stray byte and the first R - 1 bytes of e, so it is not e. | Refuse, or otherwise repair, a file whose length is not a whole number of records, so that rows stay aligned. | medium, not executed | StoreSpec.TrailingBytesCorruptNextWrite | Store.DataBase.NewOrOpen |
