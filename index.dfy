/** The generated index struct: for every indexed field, a map from the
    field's value to the set of rows holding it, with `add` and `remove`
    keeping it in step with the records and never storing an empty set. */
module Index {

  import opened Layout

  type Row = nat

  /** One `HashMap<FieldType, HashSet<usize>>`. */
  type FieldMap = map<Bytes, set<Row>>

  /** The index struct: one field map per indexed field position. */
  type Maps = map<nat, FieldMap>

  /** The rows stored under `v`, or none when `v` is not a key. */
  function Lookup(m: FieldMap, v: Bytes): set<Row>
  {
    if v in m then m[v] else {}
  }

  predicate NoEmpty(m: FieldMap)
  {
    forall v :: v in m ==> m[v] != {}
  }

  /** `entry(value).or_insert(HashSet::new()).insert(row)` */
  function Insert(m: FieldMap, key: Bytes, row: Row): FieldMap
  {
    m[key := Lookup(m, key) + {row}]
  }

  /** `if let Some(set) = get_mut(key) { set.remove(row); if set.is_empty() { remove(key) } }` */
  function Erase(m: FieldMap, key: Bytes, row: Row): FieldMap
  {
    if key in m then
      var rest := m[key] - {row};
      if rest == {} then m - {key} else m[key := rest]
    else m
  }

  /** add: the row joins key's set, which is created when absent; every other
      key keeps its set; no empty set appears. */
  lemma InsertLookup(m: FieldMap, key: Bytes, row: Row)
    ensures key in Insert(m, key, row) && row in Insert(m, key, row)[key]
    ensures forall v :: Lookup(Insert(m, key, row), v) == if v == key then Lookup(m, v) + {row} else Lookup(m, v)
    ensures NoEmpty(m) ==> NoEmpty(Insert(m, key, row))
  {
  }

  /** remove: the row leaves key's set, a set left empty is dropped with its
      key, every other key keeps its set, and an absent key changes nothing. */
  lemma EraseLookup(m: FieldMap, key: Bytes, row: Row)
    ensures key !in m ==> Erase(m, key, row) == m
    ensures forall v :: Lookup(Erase(m, key, row), v) == if v == key then Lookup(m, v) - {row} else Lookup(m, v)
    ensures key in Erase(m, key, row) ==> Erase(m, key, row)[key] != {}
    ensures NoEmpty(m) ==> NoEmpty(Erase(m, key, row))
  {
  }

  /** Two maps without empty sets that agree on every lookup are the same map. */
  lemma EqualByLookup(a: FieldMap, b: FieldMap)
    requires NoEmpty(a) && NoEmpty(b)
    requires forall v :: Lookup(a, v) == Lookup(b, v)
    ensures a == b
  {
    forall v | v in a ensures v in b && a[v] == b[v] {
      assert Lookup(a, v) == Lookup(b, v);
    }
    forall v | v in b ensures v in a {
      assert Lookup(a, v) == Lookup(b, v);
    }
  }

  /** Adding a row that was not stored under `key` and removing it again
      restores the map exactly, because remove prunes an emptied key. */
  lemma InsertThenErase(m: FieldMap, key: Bytes, row: Row)
    requires NoEmpty(m) && row !in Lookup(m, key)
    ensures Erase(Insert(m, key, row), key, row) == m
  {
    InsertLookup(m, key, row);
    EraseLookup(Insert(m, key, row), key, row);
    EqualByLookup(Erase(Insert(m, key, row), key, row), m);
  }

  /** Removing a row stored under `key` and adding it back restores the map. */
  lemma EraseThenInsert(m: FieldMap, key: Bytes, row: Row)
    requires NoEmpty(m) && row in Lookup(m, key)
    ensures Insert(Erase(m, key, row), key, row) == m
  {
    EraseLookup(m, key, row);
    InsertLookup(Erase(m, key, row), key, row);
    EqualByLookup(Insert(Erase(m, key, row), key, row), m);
  }

  /** The rows whose field f holds v: the reference meaning of a field map. */
  ghost function Rows(vec: seq<Record>, f: nat, v: Bytes): set<Row>
  {
    set i | 0 <= i < |vec| && f < |vec[i]| && vec[i][f] == v
  }

  /** m indexes field f of vec: m[v] is exactly the rows holding v, and no empty set is kept. */
  ghost predicate Indexes(m: FieldMap, vec: seq<Record>, f: nat)
  {
    NoEmpty(m) && forall v :: Lookup(m, v) == Rows(vec, f, v)
  }

  ghost predicate Consistent(maps: Maps, vec: seq<Record>)
  {
    forall f :: f in maps ==> Indexes(maps[f], vec, f)
  }

  /** The records fix the field map: at most one map indexes a field. */
  lemma IndexesUnique(a: FieldMap, b: FieldMap, vec: seq<Record>, f: nat)
    requires Indexes(a, vec, f) && Indexes(b, vec, f)
    ensures a == b
  {
    EqualByLookup(a, b);
  }

  lemma IndexesEmpty(f: nat)
    ensures Indexes(map[], [], f)
  {
    forall v ensures Lookup(map[], v) == Rows([], f, v) {
      assert Rows([], f, v) == {};
    }
  }

  /** Adding a pushed record's row keeps a field map exact. */
  lemma IndexesPush(m: FieldMap, vec: seq<Record>, f: nat, e: Record)
    requires Indexes(m, vec, f) && f < |e|
    ensures Indexes(Insert(m, e[f], |vec|), vec + [e], f)
  {
    var vec' := vec + [e];
    InsertLookup(m, e[f], |vec|);
    forall v ensures Lookup(Insert(m, e[f], |vec|), v) == Rows(vec', f, v) {
      assert forall i :: 0 <= i < |vec| ==> vec'[i] == vec[i];
      if v == e[f] {
        assert Rows(vec', f, v) == Rows(vec, f, v) + {|vec|};
      } else {
        assert Rows(vec', f, v) == Rows(vec, f, v);
      }
    }
  }

  /** Removing a row under its old value and adding it under its new value
      keeps a field map exact when the record at that row is replaced. */
  lemma IndexesReplace(m: FieldMap, vec: seq<Record>, f: nat, i: Row, e: Record)
    requires Indexes(m, vec, f) && i < |vec| && f < |vec[i]| && f < |e|
    ensures Indexes(Insert(Erase(m, vec[i][f], i), e[f], i), vec[i := e], f)
  {
    var vec' := vec[i := e];
    var m' := Insert(Erase(m, vec[i][f], i), e[f], i);
    EraseLookup(m, vec[i][f], i);
    InsertLookup(Erase(m, vec[i][f], i), e[f], i);
    forall v ensures Lookup(m', v) == Rows(vec', f, v) {
      RowsReplace(vec, f, i, e, v);
    }
  }

  /** Replacing row i moves it out of the old value's rows and into the new value's. */
  lemma RowsReplace(vec: seq<Record>, f: nat, i: Row, e: Record, v: Bytes)
    requires i < |vec| && f < |e|
    ensures v == e[f] ==> Rows(vec[i := e], f, v) == (Rows(vec, f, v) - {i}) + {i}
    ensures v != e[f] ==> Rows(vec[i := e], f, v) == Rows(vec, f, v) - {i}
  {
    var without := set j | 0 <= j < |vec| && j != i && f < |vec[j]| && vec[j][f] == v;
    assert Rows(vec, f, v) - {i} == without;
    if v == e[f] {
      assert Rows(vec[i := e], f, v) == without + {i};
    } else {
      assert Rows(vec[i := e], f, v) == without;
    }
  }

  /** Moving row i of an exact field map to a new value v: afterwards the row
      is under v and no other value, every other row stays where it was, and
      no empty set is kept. */
  lemma MoveRow(m: FieldMap, vec: seq<Record>, f: nat, i: Row, v: Bytes)
    requires Indexes(m, vec, f) && i < |vec| && f < |vec[i]| && vec[i][f] != v
    ensures var moved := Insert(Erase(m, vec[i][f], i), v, i);
      && i in Lookup(moved, v)
      && (forall w :: w != v ==> i !in Lookup(moved, w))
      && (forall w :: Lookup(moved, w) - {i} == Lookup(m, w) - {i})
      && NoEmpty(moved)
  {
    EraseLookup(m, vec[i][f], i);
    InsertLookup(Erase(m, vec[i][f], i), v, i);
  }

  /** `add(elem, row)`: the row joins elem's value set in every indexed field. */
  function AddRow(maps: Maps, elem: Record, row: Row): (r: Maps)
    requires forall f :: f in maps ==> f < |elem|
    ensures r.Keys == maps.Keys
  {
    map f | f in maps :: Insert(maps[f], elem[f], row)
  }

  /** `remove(elem, row)`: the row leaves elem's value set in every indexed field. */
  function RemoveRow(maps: Maps, elem: Record, row: Row): (r: Maps)
    requires forall f :: f in maps ==> f < |elem|
    ensures r.Keys == maps.Keys
  {
    map f | f in maps :: Erase(maps[f], elem[f], row)
  }

  /** Fields without a map play no part: two records that agree on the indexed
      fields are added identically. */
  lemma AddRowIgnoresUnindexed(maps: Maps, a: Record, b: Record, row: Row)
    requires forall f :: f in maps ==> f < |a| && f < |b| && a[f] == b[f]
    ensures AddRow(maps, a, row) == AddRow(maps, b, row)
  {
  }

  /** Adding a row to every map and removing it again restores the index
      when the row was in none of the value sets it joined. */
  lemma AddThenRemoveRow(maps: Maps, elem: Record, row: Row)
    requires forall f :: f in maps ==> f < |elem| && NoEmpty(maps[f]) && row !in Lookup(maps[f], elem[f])
    ensures RemoveRow(AddRow(maps, elem, row), elem, row) == maps
  {
    forall f | f in maps ensures RemoveRow(AddRow(maps, elem, row), elem, row)[f] == maps[f] {
      InsertThenErase(maps[f], elem[f], row);
    }
  }

  /** `write`'s index update keeps the index consistent with the pushed mirror. */
  lemma AddRowConsistent(maps: Maps, vec: seq<Record>, e: Record)
    requires Consistent(maps, vec) && forall f :: f in maps ==> f < |e|
    ensures Consistent(AddRow(maps, e, |vec|), vec + [e])
  {
    forall f | f in maps ensures Indexes(AddRow(maps, e, |vec|)[f], vec + [e], f) {
      IndexesPush(maps[f], vec, f, e);
    }
  }

  /** `change`'s remove-then-add keeps the index consistent with the updated mirror. */
  lemma ChangeRowConsistent(maps: Maps, vec: seq<Record>, i: Row, e: Record)
    requires Consistent(maps, vec) && i < |vec|
    requires forall f :: f in maps ==> f < |e| && f < |vec[i]|
    ensures Consistent(AddRow(RemoveRow(maps, vec[i], i), e, i), vec[i := e])
  {
    forall f | f in maps ensures Indexes(AddRow(RemoveRow(maps, vec[i], i), e, i)[f], vec[i := e], f) {
      IndexesReplace(maps[f], vec, f, i, e);
    }
  }

  /** In a field map that indexes the records, removing row i under its value
      and adding it back under the same value changes nothing. */
  lemma IndexesReAdd(m: FieldMap, vec: seq<Record>, f: nat, i: Row)
    requires Indexes(m, vec, f) && i < |vec| && f < |vec[i]|
    ensures Insert(Erase(m, vec[i][f], i), vec[i][f], i) == m
  {
    assert i in Rows(vec, f, vec[i][f]);
    EraseThenInsert(m, vec[i][f], i);
  }

  /** Removing a row under its record's values and adding it back under the
      same values leaves a consistent index as it was. */
  lemma RemoveAddSameRow(maps: Maps, vec: seq<Record>, i: Row)
    requires Consistent(maps, vec) && i < |vec| && forall f :: f in maps ==> f < |vec[i]|
    ensures AddRow(RemoveRow(maps, vec[i], i), vec[i], i) == maps
  {
    ReAddFields(maps, vec, i, vec[i], -1);
    SameMaps(AddRow(RemoveRow(maps, vec[i], i), vec[i], i), maps);
  }

  /** Re-adding row i under field values that agree with vec[i] everywhere
      except at field k restores every field map other than k's. */
  lemma ReAddFields(maps: Maps, vec: seq<Record>, i: Row, e: Record, k: int)
    requires Consistent(maps, vec) && i < |vec| && forall f :: f in maps ==> f < |vec[i]| && f < |e|
    requires forall f :: f in maps && f != k ==> e[f] == vec[i][f]
    ensures var back := AddRow(RemoveRow(maps, vec[i], i), e, i);
      back.Keys == maps.Keys && forall f :: f in maps && f != k ==> back[f] == maps[f]
  {
    var removed := RemoveRow(maps, vec[i], i);
    var back := AddRow(removed, e, i);
    forall f | f in maps && f != k ensures back[f] == maps[f] {
      IndexesReAdd(maps[f], vec, f, i);
    }
  }

  /** Moving row i in field k's map alone, from its old value's set to v's,
      ends where removing and re-adding the whole record with field k set to v does. */
  lemma MoveFieldIsChange(maps: Maps, vec: seq<Record>, i: Row, k: nat, v: Bytes)
    requires Consistent(maps, vec) && i < |vec| && k < |vec[i]| && forall f :: f in maps ==> f < |vec[i]|
    ensures (if k in maps then maps[k := Insert(Erase(maps[k], vec[i][k], i), v, i)] else maps)
         == AddRow(RemoveRow(maps, vec[i], i), vec[i][k := v], i)
  {
    ReAddFields(maps, vec, i, vec[i][k := v], k);
    if k in maps {
      MoveOneField(maps, vec[i], i, k, v);
    } else {
      SameMaps(maps, AddRow(RemoveRow(maps, vec[i], i), vec[i][k := v], i));
    }
  }

  lemma MoveOneField(maps: Maps, r: Record, i: Row, k: nat, v: Bytes)
    requires k in maps && k < |r| && forall f :: f in maps ==> f < |r|
    requires var back := AddRow(RemoveRow(maps, r, i), r[k := v], i);
      forall f :: f in maps && f != k ==> back[f] == maps[f]
    ensures maps[k := Insert(Erase(maps[k], r[k], i), v, i)] == AddRow(RemoveRow(maps, r, i), r[k := v], i)
  {
    var moved := AddRow(RemoveRow(maps, r, i), r[k := v], i);
    var a := maps[k := Insert(Erase(maps[k], r[k], i), v, i)];
    forall f | f in a ensures a[f] == moved[f] {
      if f == k {
        assert r[k := v][k] == v;
      }
    }
    SameMaps(a, moved);
  }

  lemma SameMaps(a: Maps, b: Maps)
    requires a.Keys == b.Keys && forall f :: f in a ==> a[f] == b[f]
    ensures a == b
  {
  }

  /** The index struct's `Default`: one empty map per indexed field. */
  function EmptyMaps(fields: set<nat>): Maps
  {
    map f | f in fields :: map[]
  }

  /** The index built by adding rows 0, 1, ... in order, as opening a file does. */
  function Replay(fields: set<nat>, vec: seq<Record>): (maps: Maps)
    requires forall i, f :: 0 <= i < |vec| && f in fields ==> f < |vec[i]|
    ensures maps.Keys == fields
  {
    if vec == [] then EmptyMaps(fields)
    else AddRow(Replay(fields, vec[..|vec| - 1]), vec[|vec| - 1], |vec| - 1)
  }

  /** The default index: one empty map per field, consistent with no records. */
  lemma EmptyMapsConsistent(fields: set<nat>)
    ensures EmptyMaps(fields).Keys == fields
    ensures Consistent(EmptyMaps(fields), [])
  {
    forall f | f in fields ensures Indexes(EmptyMaps(fields)[f], [], f) {
      IndexesEmpty(f);
    }
  }

  /** Replaying the records gives an index consistent with them. */
  lemma {:induction false} ReplayConsistent(fields: set<nat>, vec: seq<Record>)
    requires forall i, f :: 0 <= i < |vec| && f in fields ==> f < |vec[i]|
    ensures Consistent(Replay(fields, vec), vec)
  {
    if vec == [] {
      EmptyMapsConsistent(fields);
    } else {
      var n := |vec| - 1;
      var prefix := vec[..n];
      ReplayConsistent(fields, prefix);
      ReplayLast(fields, vec, prefix, vec[n]);
      AddRowConsistent(Replay(fields, prefix), prefix, vec[n]);
    }
  }

  /** The last replay step: add the last record under its position. */
  lemma ReplayLast(fields: set<nat>, vec: seq<Record>, prefix: seq<Record>, e: Record)
    requires forall i, f :: 0 <= i < |vec| && f in fields ==> f < |vec[i]|
    requires vec != [] && prefix == vec[..|vec| - 1] && e == vec[|vec| - 1]
    ensures vec == prefix + [e]
    ensures forall f :: f in fields ==> f < |e|
    ensures Replay(fields, vec) == AddRow(Replay(fields, prefix), e, |prefix|)
  {
  }

  /** Any consistent index with the same fields is the replayed one, so the
      index after any history equals the one rebuilt from the records. */
  lemma ConsistentIsReplay(fields: set<nat>, maps: Maps, vec: seq<Record>)
    requires forall i, f :: 0 <= i < |vec| && f in fields ==> f < |vec[i]|
    requires maps.Keys == fields && Consistent(maps, vec)
    ensures maps == Replay(fields, vec)
  {
    var replayed := Replay(fields, vec);
    ReplayConsistent(fields, vec);
    forall f | f in fields ensures maps[f] == replayed[f] {
      IndexesUnique(maps[f], replayed[f], vec, f);
    }
  }

  /** The generated `Indexing<Type>` struct. */
  class Indexing {
    const fields: set<nat>
    const arity: nat
    var maps: Maps

    ghost predicate Valid()
      reads this
    {
      maps.Keys == fields && forall f :: f in fields ==> f < arity
    }

    /** `#[derive(Default)]`: every field map empty. */
    constructor Default(fields: set<nat>, arity: nat)
      requires forall f :: f in fields ==> f < arity
      ensures Valid() && this.fields == fields && this.arity == arity
      ensures maps == EmptyMaps(fields)
    {
      this.fields := fields;
      this.arity := arity;
      maps := EmptyMaps(fields);
    }

    /** One statement per indexed field, in declaration order. */
    method Add(elem: Record, index: Row)
      requires Valid() && |elem| == arity
      modifies this
      ensures Valid() && maps == AddRow(old(maps), elem, index)
    {
      for f := 0 to arity
        invariant maps.Keys == fields
        invariant forall g :: g in fields ==>
          maps[g] == if g < f then Insert(old(maps)[g], elem[g], index) else old(maps)[g]
      {
        if f in fields {
          maps := maps[f := Insert(maps[f], elem[f], index)];
        }
      }
      assert forall g :: g in fields ==> maps[g] == AddRow(old(maps), elem, index)[g];
    }

    method Remove(elem: Record, index: Row)
      requires Valid() && |elem| == arity
      modifies this
      ensures Valid() && maps == RemoveRow(old(maps), elem, index)
    {
      for f := 0 to arity
        invariant maps.Keys == fields
        invariant forall g :: g in fields ==>
          maps[g] == if g < f then Erase(old(maps)[g], elem[g], index) else old(maps)[g]
      {
        if f in fields {
          maps := maps[f := Erase(maps[f], elem[f], index)];
        }
      }
      assert forall g :: g in fields ==> maps[g] == RemoveRow(old(maps), elem, index)[g];
    }
  }
}
