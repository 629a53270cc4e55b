/**
 The persisted form of the chapter hotkey list and its relation to the
 in-memory list.

 The host's structured save object is a map from an entry's identifier to
 a value. A save writes an object with a `"name"` string and a `"bindings"`
 array under each identifier. Writing a key that is already present
 replaces its value, so when two entries share an identifier the one saved
 last wins. Loading creates one entry per key, in an order the model leaves
 open, and accepts any value under a key: what is missing or of the wrong
 type is read as an empty name or as no binding array.
 */
module HotkeyStore {

  /** A binding configuration, owned and interpreted by the host: here an
      opaque list of serialized binding descriptors. */
  datatype Bindings = Bindings(descriptors: seq<string>)

  /** The configuration of a hotkey the user has not bound to any key. */
  const NoBindings := Bindings([])

  /** One chapter hotkey as a plain record: identifier, chapter name and
      current bindings. */
  datatype Entry = Entry(id: string, name: string, bindings: Bindings)

  datatype Option<T> = None | Some(value: T)

  /**
   A value stored under an identifier. An object has a `"name"` member
   that is a string or not (`None` when it is missing or of another type),
   and a `"bindings"` member that is an array or not. Any value that is not
   an object is `NonObjectValue`.
   */
  datatype StoredValue =
    | HotkeyObject(name: Option<string>, bindings: Option<Bindings>)
    | NonObjectValue

  type Store = map<string, StoredValue>

  /** What a save writes for an entry: `{ "name": ..., "bindings": [...] }`. */
  function Stored(e: Entry): StoredValue {
    HotkeyObject(Some(e.name), Some(e.bindings))
  }

  /** The name a load reads from a stored value: reading a string member
      that is absent, of another type, or of a value that is not an object
      gives the empty string. */
  function LoadedName(v: StoredValue): string {
    if v.HotkeyObject? && v.name.Some? then v.name.value else ""
  }

  /** The binding array a load reads from a stored value, or `None` when
      there is none to read. */
  function LoadedBindings(v: StoredValue): Option<Bindings> {
    if v.HotkeyObject? then v.bindings else None
  }

  /** The entry a load creates for identifier `id` holding value `v`; a
      row created without a binding array has no bindings. */
  function LoadedEntry(id: string, v: StoredValue): (e: Entry)
    ensures e.id == id
    ensures v == Stored(e) <==> v.HotkeyObject? && v.name.Some? && v.bindings.Some?
  {
    var b := LoadedBindings(v);
    Entry(id, LoadedName(v), if b.Some? then b.value else NoBindings)
  }

  /** A value as a load followed by a save leaves it. */
  function Normalized(id: string, v: StoredValue): StoredValue {
    Stored(LoadedEntry(id, v))
  }

  /** Every value is an object with a string name and a binding array. */
  ghost predicate WellFormed(store: Store) {
    forall id :: id in store ==> store[id] == Normalized(id, store[id])
  }

  ghost function IdSet(es: seq<Entry>): set<string> {
    set i | 0 <= i < |es| :: es[i].id
  }

  ghost predicate DistinctIds(es: seq<Entry>) {
    forall i, j :: 0 <= i < j < |es| ==> es[i].id != es[j].id
  }

  lemma IdSetSnoc(es: seq<Entry>, e: Entry)
    ensures IdSet(es + [e]) == IdSet(es) + {e.id}
  {
    var es' := es + [e];
    assert es'[|es|] == e;
    forall x | x in IdSet(es) ensures x in IdSet(es') {
      var i :| 0 <= i < |es| && es[i].id == x;
      assert es'[i] == es[i];
    }
  }

  /**
   The store written by a save of the list `es`: the host object starts out
   cleared and every entry, in list order, writes its record under its
   identifier.
   */
  function SaveRecords(es: seq<Entry>): (store: Store)
    ensures store.Keys == IdSet(es)
  {
    if es == [] then
      map[]
    else
      var n := |es| - 1;
      assert es == es[..n] + [es[n]];
      IdSetSnoc(es[..n], es[n]);
      SaveRecords(es[..n])[es[n].id := Stored(es[n])]
  }

  /** The value stored under an entry's identifier is that entry's record
      when no later entry reuses the identifier. */
  lemma {:induction false} SaveRecordsLastWins(es: seq<Entry>, k: int)
    requires 0 <= k < |es|
    requires forall j :: k < j < |es| ==> es[j].id != es[k].id
    ensures es[k].id in SaveRecords(es)
    ensures SaveRecords(es)[es[k].id] == Stored(es[k])
    decreases |es|
  {
    var n := |es| - 1;
    if k < n {
      SaveRecordsLastWins(es[..n], k);
    }
  }

  /**
   `es` is a list that a load of `store` can produce: one entry per key,
   no identifier twice, each entry being what a load reads from the value
   stored under its identifier.
   */
  ghost predicate IsLoadOf(es: seq<Entry>, store: Store) {
    && DistinctIds(es)
    && IdSet(es) == store.Keys
    && forall i :: 0 <= i < |es| ==> es[i].id in store && es[i] == LoadedEntry(es[i].id, store[es[i].id])
  }

  /** Saving a freshly loaded list writes back the store it was loaded from,
      with every value normalised to an object with a string name and a
      binding array. */
  lemma SaveAfterLoad(es: seq<Entry>, store: Store)
    requires IsLoadOf(es, store)
    ensures SaveRecords(es).Keys == store.Keys
    ensures forall id :: id in store ==> SaveRecords(es)[id] == Normalized(id, store[id])
  {
    var saved := SaveRecords(es);
    forall id | id in store ensures saved[id] == Normalized(id, store[id]) {
      var i :| 0 <= i < |es| && es[i].id == id;
      SaveRecordsLastWins(es, i);
    }
  }

  /** For a well-formed store the normalisation changes nothing: saving a
      freshly loaded list writes back exactly that store. */
  lemma SaveAfterLoadWellFormed(es: seq<Entry>, store: Store)
    requires IsLoadOf(es, store) && WellFormed(store)
    ensures SaveRecords(es) == store
  {
    SaveAfterLoad(es, store);
  }

  /** Every store a save writes is well-formed. */
  lemma SaveRecordsWellFormed(es: seq<Entry>)
    ensures WellFormed(SaveRecords(es))
  {
  }

  /** With distinct identifiers there are as many identifiers as entries. */
  lemma {:induction false} IdSetSize(es: seq<Entry>)
    requires DistinctIds(es)
    ensures |IdSet(es)| == |es|
    decreases |es|
  {
    if es != [] {
      var n := |es| - 1;
      assert es == es[..n] + [es[n]];
      IdSetSnoc(es[..n], es[n]);
      IdSetSize(es[..n]);
      assert es[n].id !in IdSet(es[..n]);
    }
  }

  /**
   Saving a list whose identifiers are distinct and loading the result gives
   back the same records, each exactly once: the loaded list has the same
   length and the same elements, in some order.
   */
  lemma LoadAfterSave(es: seq<Entry>, loaded: seq<Entry>)
    requires DistinctIds(es)
    requires IsLoadOf(loaded, SaveRecords(es))
    ensures |loaded| == |es|
    ensures forall e :: e in loaded <==> e in es
  {
    var store := SaveRecords(es);
    IdSetSize(es);
    IdSetSize(loaded);
    forall e | e in loaded ensures e in es {
      var i :| 0 <= i < |es| && es[i].id == e.id;
      SaveRecordsLastWins(es, i);
      assert e == LoadedEntry(e.id, Stored(es[i]));
    }
    forall e | e in es ensures e in loaded {
      var i :| 0 <= i < |es| && es[i] == e;
      SaveRecordsLastWins(es, i);
      var j :| 0 <= j < |loaded| && loaded[j].id == e.id;
      assert loaded[j] == LoadedEntry(e.id, Stored(e));
    }
  }

  /**
   Renaming the entry at position `k` changes what a save writes only under
   that entry's identifier, and there only the name.
   */
  lemma SaveAfterRename(es: seq<Entry>, k: int, newName: string)
    requires DistinctIds(es) && 0 <= k < |es|
    ensures SaveRecords(es[k := es[k].(name := newName)])
            == SaveRecords(es)[es[k].id := Stored(es[k].(name := newName))]
  {
    var es' := es[k := es[k].(name := newName)];
    var lhs, rhs := SaveRecords(es'), SaveRecords(es)[es[k].id := Stored(es[k].(name := newName))];
    assert IdSet(es') == IdSet(es) by {
      forall x | x in IdSet(es) ensures x in IdSet(es') {
        var i :| 0 <= i < |es| && es[i].id == x;
        assert es'[i].id == x;
      }
    }
    forall id | id in lhs ensures rhs[id] == lhs[id] {
      var i :| 0 <= i < |es'| && es'[i].id == id;
      SaveRecordsLastWins(es', i);
      if i != k {
        SaveRecordsLastWins(es, i);
      }
    }
  }
}
