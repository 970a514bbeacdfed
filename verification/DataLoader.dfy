/** `DataLoader`'s in-memory store: the records of every loaded type, and
    per type an index from field value to the records holding it. Reading
    the files is outside the model: a load receives the records the file
    held (an empty list when the file is missing). */
module DataLoader {
  import opened Wrappers
  import opened Strings
  import opened JsonTree
  import opened SchemaModel

  // ---------------------------------------------------------------------
  // The linear scans the index stands in for

  /** The records whose field equals `v`, in order. */
  function Matching(records: seq<Record>, field: string, v: Value): (r: seq<Record>)
    ensures |r| <= |records|
    ensures forall x | x in r :: x in records && FieldValue(x, field) == v
    ensures forall x | x in records && FieldValue(x, field) == v :: x in r
    decreases |records|
  {
    if |records| == 0 then []
    else
      var init := records[..|records| - 1];
      var last := records[|records| - 1];
      assert records == init + [last];
      Matching(init, field, v) + (if FieldValue(last, field) == v then [last] else [])
  }

  /** The first record whose field equals `v`, if any. */
  function FirstMatching(records: seq<Record>, field: string, v: Value): (r: Option<Record>)
    ensures r.None? <==> forall i | 0 <= i < |records| :: FieldValue(records[i], field) != v
    ensures r.Some? ==> exists i | 0 <= i < |records| ::
      (records[i] == r.value && FieldValue(records[i], field) == v &&
       forall j | 0 <= j < i :: FieldValue(records[j], field) != v)
  {
    if |records| == 0 then None
    else if FieldValue(records[0], field) == v then Some(records[0])
    else
      var r := FirstMatching(records[1..], field, v);
      assert forall i | 1 <= i < |records| :: records[i] == records[1..][i - 1];
      r
  }

  /** The first match is the head of the filtered list. */
  lemma {:induction false} FirstMatchingIsHead(records: seq<Record>, field: string, v: Value)
    ensures FirstMatching(records, field, v) ==
      if |Matching(records, field, v)| == 0 then None else Some(Matching(records, field, v)[0])
    decreases |records|
  {
    if |records| > 0 {
      var init := records[..|records| - 1];
      var last := records[|records| - 1];
      FirstMatchingIsHead(init, field, v);
      assert records == init + [last];
      FirstMatchingSnoc(init, last, field, v);
    }
  }

  /** Appending a record changes the first match only when there was none. */
  lemma {:induction false} FirstMatchingSnoc(init: seq<Record>, last: Record, field: string, v: Value)
    ensures FirstMatching(init + [last], field, v) ==
      if FirstMatching(init, field, v).Some? then FirstMatching(init, field, v)
      else if FieldValue(last, field) == v then Some(last) else None
    decreases |init|
  {
    if |init| > 0 {
      assert (init + [last])[1..] == init[1..] + [last];
      FirstMatchingSnoc(init[1..], last, field, v);
    }
  }

  // ---------------------------------------------------------------------
  // Field indexes

  /** One field's index: each non-null value to the records holding it. */
  type FieldIndex = map<Value, seq<Record>>

  /** `buildIndexForField`: the loop over the records, in order, appending
      each record under its value (`computeIfAbsent(...).add(record)`); a
      null value is not indexed. */
  function IndexOf(records: seq<Record>, field: string): FieldIndex
    decreases |records|
  {
    if |records| == 0 then map[]
    else
      var idx := IndexOf(records[..|records| - 1], field);
      var last := records[|records| - 1];
      var v := FieldValue(last, field);
      if v == VNull then idx
      else idx[v := (if v in idx then idx[v] else []) + [last]]
  }

  /** The index holds exactly the non-null values some record has, and under
      each the records a linear scan finds, in the same order. */
  lemma {:induction false} IndexIsScan(records: seq<Record>, field: string, v: Value)
    ensures v in IndexOf(records, field) <==> v != VNull && |Matching(records, field, v)| > 0
    ensures v in IndexOf(records, field) ==> IndexOf(records, field)[v] == Matching(records, field, v)
    decreases |records|
  {
    if |records| > 0 {
      var init := records[..|records| - 1];
      IndexIsScan(init, field, v);
    }
  }

  /** An index has at most as many values as there are records. */
  lemma {:induction false} IndexSize(records: seq<Record>, field: string)
    ensures |IndexOf(records, field).Keys| <= |records|
    decreases |records|
  {
    if |records| > 0 {
      var init := records[..|records| - 1];
      IndexSize(init, field);
      var idx := IndexOf(init, field);
      var v := FieldValue(records[|records| - 1], field);
      if v != VNull {
        assert IndexOf(records, field).Keys <= idx.Keys + {v};
        assert |idx.Keys + {v}| <= |idx.Keys| + 1;
      }
    }
  }

  /** The fields `buildIndexes` indexes: `id`, and every key of the first
      record whose lower-cased form ends in `id`. */
  function IndexedFields(first: Record): (r: set<string>)
    ensures "id" in r
    ensures forall f | f in first :: f in r <==> f == "id" || EndsWith(Lower(f), "id")
    ensures forall f | f in r :: f == "id" || f in first
  {
    {"id"} + set f | f in first && EndsWith(Lower(f), "id")
  }

  /** The indexes of one non-empty type. */
  function TypeIndexes(records: seq<Record>): (r: map<string, FieldIndex>)
    requires |records| > 0
    ensures r.Keys == IndexedFields(records[0])
  {
    map f | f in IndexedFields(records[0]) :: IndexOf(records, f)
  }

  // ---------------------------------------------------------------------
  // The loader

  datatype Loader = Loader(store: map<string, seq<Record>>, indexes: map<string, map<string, FieldIndex>>)

  function EmptyLoader(): Loader {
    Loader(map[], map[])
  }

  /** The store and the indexes agree: exactly the non-empty types are
      indexed, each with the indexes its current records give. */
  predicate Valid(l: Loader) {
    (forall t | t in l.indexes :: t in l.store && |l.store[t]| > 0 && l.indexes[t] == TypeIndexes(l.store[t])) &&
    (forall t | t in l.store && |l.store[t]| > 0 :: t in l.indexes)
  }

  /** `buildIndexes`: a missing or empty type is left alone; otherwise the
      type's indexes are replaced by fresh ones. */
  function BuildIndexes(l: Loader, t: string): (r: Loader)
    ensures r.store == l.store
    ensures t !in l.store || |l.store[t]| == 0 ==> r == l
    ensures t in l.store && |l.store[t]| > 0 ==> r.indexes == l.indexes[t := TypeIndexes(l.store[t])]
  {
    if t !in l.store || |l.store[t]| == 0 then l
    else l.(indexes := l.indexes[t := TypeIndexes(l.store[t])])
  }

  /** `loadFromFile` storing what the file held, then `buildIndexes`. */
  function LoadType(l: Loader, t: string, records: seq<Record>): (r: Loader)
    ensures r.store == l.store[t := records]
  {
    BuildIndexes(l.(store := l.store[t := records]), t)
  }

  /** Loading keeps the store and the indexes in step, unless an indexed
      type is reloaded with no records: its old index then survives. */
  lemma LoadTypeValid(l: Loader, t: string, records: seq<Record>)
    requires Valid(l)
    requires |records| > 0 || t !in l.indexes
    ensures Valid(LoadType(l, t, records))
  {
  }

  /** A reload with no records leaves the old index behind, and it answers
      for records the store no longer holds. */
  lemma StaleIndexAfterEmptyReload(l: Loader, t: string)
    requires Valid(l) && t in l.indexes
    ensures !Valid(LoadType(l, t, []))
    ensures GetData(LoadType(l, t, []), t) == []
    ensures t in LoadType(l, t, []).indexes
  {
  }

  /** `loadData`: every type with a source file is loaded in schema order;
      `files` holds what each file read gives, a missing file giving no
      records. A type with only an API address is skipped. */
  function LoadData(l: Loader, types: seq<SchemaType>, files: map<string, seq<Record>>): (r: Loader)
    decreases |types|
  {
    if |types| == 0 then l else LoadData(LoadOne(l, types[0], files), types[1..], files)
  }

  /** One type of `loadData`. */
  function LoadOne(l: Loader, t: SchemaType, files: map<string, seq<Record>>): (r: Loader)
    ensures t.sourceFile.None? ==> r == l
  {
    match t.sourceFile
    case Some(file) => LoadType(l, t.name, if file in files then files[file] else [])
    case None => l
  }

  /** Loading a type not loaded before keeps the loader valid and adds the
      type when it has a source file. */
  lemma LoadOneValid(l: Loader, t: SchemaType, files: map<string, seq<Record>>)
    requires Valid(l) && t.name !in l.store
    ensures Valid(LoadOne(l, t, files))
    ensures LoadOne(l, t, files).store.Keys == l.store.Keys + (if t.sourceFile.Some? then {t.name} else {})
  {
    if t.sourceFile.Some? {
      LoadTypeValid(l, t.name, if t.sourceFile.value in files then files[t.sourceFile.value] else []);
    }
  }

  /** The names of the types among `types` that have a source file. */
  function Sourced(types: seq<SchemaType>): (r: set<string>)
    ensures forall n :: n in r <==> exists i | 0 <= i < |types| :: types[i].name == n && types[i].sourceFile.Some?
  {
    set i | 0 <= i < |types| && types[i].sourceFile.Some? :: types[i].name
  }

  /** Types with distinct names, loaded once each into a fresh loader, leave
      it valid, holding exactly the types with a source file. */
  lemma {:induction false} LoadDataValid(l: Loader, types: seq<SchemaType>, files: map<string, seq<Record>>)
    requires Valid(l)
    requires forall i, j | 0 <= i < j < |types| :: types[i].name != types[j].name
    requires forall i | 0 <= i < |types| :: types[i].name !in l.store
    ensures Valid(LoadData(l, types, files))
    ensures LoadData(l, types, files).store.Keys == l.store.Keys + Sourced(types)
    decreases |types|
  {
    if |types| > 0 {
      var next := LoadOne(l, types[0], files);
      LoadOneValid(l, types[0], files);
      LoadedNamesFresh(l.store.Keys, next.store.Keys, types);
      LoadDataValid(next, types[1..], files);
      SourcedCons(types);
    }
  }

  /** The names still to load are not in a store grown only by the first
      one. */
  lemma LoadedNamesFresh(before: set<string>, after: set<string>, types: seq<SchemaType>)
    requires |types| > 0 && after <= before + {types[0].name}
    requires forall i, j | 0 <= i < j < |types| :: types[i].name != types[j].name
    requires forall i | 0 <= i < |types| :: types[i].name !in before
    ensures forall i | 0 <= i < |types[1..]| :: types[1..][i].name !in after
    ensures forall i, j | 0 <= i < j < |types[1..]| :: types[1..][i].name != types[1..][j].name
  {
    forall i | 0 <= i < |types[1..]|
      ensures types[1..][i].name !in after
    {
      assert types[1..][i] == types[i + 1];
    }
  }

  lemma SourcedCons(types: seq<SchemaType>)
    requires |types| > 0
    ensures Sourced(types) == Sourced(types[1..]) + (if types[0].sourceFile.Some? then {types[0].name} else {})
  {
    forall n | n in Sourced(types)
      ensures n in Sourced(types[1..]) || (types[0].sourceFile.Some? && n == types[0].name)
    {
      var i :| 0 <= i < |types| && types[i].name == n && types[i].sourceFile.Some?;
      if i > 0 {
        assert types[1..][i - 1] == types[i];
      }
    }
    forall n | n in Sourced(types[1..])
      ensures n in Sourced(types)
    {
      var i :| 0 <= i < |types[1..]| && types[1..][i].name == n && types[1..][i].sourceFile.Some?;
      assert types[i + 1] == types[1..][i];
    }
  }

  // ---------------------------------------------------------------------
  // Lookups

  /** `getData`: the type's records, or an empty list. */
  function GetData(l: Loader, t: string): (r: seq<Record>)
    ensures t in l.store ==> r == l.store[t]
    ensures t !in l.store ==> r == []
  {
    if t in l.store then l.store[t] else []
  }

  /** `getRecordById`: the first record under `id` in the `id` index, else
      the first record of a linear scan. */
  function GetRecordById(l: Loader, t: string, id: Value): (r: Option<Record>)
    ensures r.Some? && !(t in l.indexes && "id" in l.indexes[t] && id in l.indexes[t]["id"]) ==>
      r.value in GetData(l, t) && FieldValue(r.value, "id") == id
  {
    if t in l.indexes && "id" in l.indexes[t] && id in l.indexes[t]["id"] && |l.indexes[t]["id"][id]| > 0
    then Some(l.indexes[t]["id"][id][0])
    else
      var r := FirstMatching(GetData(l, t), "id", id);
      assert r.Some? ==> r.value in GetData(l, t);
      r
  }

  /** `getRecordsByField`: the index's list when the value is indexed, else
      a linear filter. */
  function GetRecordsByField(l: Loader, t: string, field: string, v: Value): (r: seq<Record>)
    ensures !(t in l.indexes && field in l.indexes[t] && v in l.indexes[t][field]) ==>
      r == Matching(GetData(l, t), field, v)
  {
    if t in l.indexes && field in l.indexes[t] && v in l.indexes[t][field] then l.indexes[t][field][v]
    else Matching(GetData(l, t), field, v)
  }

  /** Whether or not the index is used, a lookup by field finds what the
      linear scan of the type's records finds. */
  lemma RecordsByFieldIsScan(l: Loader, t: string, field: string, v: Value)
    requires Valid(l)
    ensures GetRecordsByField(l, t, field, v) == Matching(GetData(l, t), field, v)
  {
    if t in l.indexes && field in l.indexes[t] && v in l.indexes[t][field] {
      IndexIsScan(l.store[t], field, v);
    }
  }

  /** A lookup by id finds the first record whose `id` equals the argument,
      or nothing. */
  lemma RecordByIdIsFirst(l: Loader, t: string, id: Value)
    requires Valid(l)
    ensures GetRecordById(l, t, id) == FirstMatching(GetData(l, t), "id", id)
  {
    FirstMatchingIsHead(GetData(l, t), "id", id);
    if t in l.indexes && "id" in l.indexes[t] && id in l.indexes[t]["id"] {
      IndexIsScan(l.store[t], "id", id);
    }
  }

  /** `getDataTypes`. */
  function GetDataTypes(l: Loader): (r: set<string>)
    ensures forall t :: t in r <==> t in l.store
  {
    l.store.Keys
  }

  /** After loading a schema whose names are distinct, the loaded types are
      exactly the ones with a source file. */
  lemma LoadedTypes(types: seq<SchemaType>, files: map<string, seq<Record>>)
    requires forall i, j | 0 <= i < j < |types| :: types[i].name != types[j].name
    ensures GetDataTypes(LoadData(EmptyLoader(), types, files)) == Sourced(types)
    ensures Valid(LoadData(EmptyLoader(), types, files))
  {
    LoadDataValid(EmptyLoader(), types, files);
  }

  // ---------------------------------------------------------------------
  // Debug information

  datatype DebugInfo = DebugInfo(
    dataSize: map<string, nat>,
    indexSizes: map<string, map<string, nat>>,
    samples: map<string, Record>)

  /** `getDebugInfo`: the record count of every type, the number of values
      in every index, and the first record of every non-empty type. */
  function GetDebugInfo(l: Loader): (r: DebugInfo)
    ensures r.dataSize.Keys == l.store.Keys
    ensures forall t | t in l.store :: r.dataSize[t] == |l.store[t]|
    ensures forall t :: t in r.samples <==> t in l.store && |l.store[t]| > 0
    ensures forall t | t in r.samples :: r.samples[t] == l.store[t][0]
    ensures r.indexSizes.Keys == l.indexes.Keys
    ensures forall t | t in l.indexes :: r.indexSizes[t].Keys == l.indexes[t].Keys
    ensures forall t, f | t in l.indexes && f in l.indexes[t] :: r.indexSizes[t][f] == |l.indexes[t][f].Keys|
  {
    DebugInfo(
      map t | t in l.store :: |l.store[t]|,
      map t | t in l.indexes :: map f | f in l.indexes[t] :: |l.indexes[t][f].Keys|,
      map t | t in l.store && |l.store[t]| > 0 :: l.store[t][0])
  }

  /** In a valid loader the types with a sample are exactly the indexed
      ones, and no index has more values than its type has records. */
  lemma DebugInfoConsistent(l: Loader)
    requires Valid(l)
    ensures GetDebugInfo(l).samples.Keys == GetDebugInfo(l).indexSizes.Keys
    ensures forall t, f | t in l.indexes && f in l.indexes[t] ::
      GetDebugInfo(l).indexSizes[t][f] <= GetDebugInfo(l).dataSize[t]
  {
    var d := GetDebugInfo(l);
    assert d.samples.Keys == l.indexes.Keys by {
      forall t | t in d.samples
        ensures t in l.indexes
      {
        assert t in l.store && |l.store[t]| > 0;
      }
    }
    forall t, f | t in l.indexes && f in l.indexes[t]
      ensures d.indexSizes[t][f] <= d.dataSize[t]
    {
      IndexSize(l.store[t], f);
      assert d.indexSizes[t][f] == |l.indexes[t][f].Keys|;
      assert l.indexes[t][f] == IndexOf(l.store[t], f);
    }
  }
}
