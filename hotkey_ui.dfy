/**
 The chapter hotkey list dialog and its save/load hook into the host.

 The dialog owns a list of rows. The ghost field `entries` is the list as
 plain records, kept equal to what each row reports; every operation states
 its effect on `entries`, and the store lemmas of `HotkeyStore` then say
 what a save or a load of that list does.
 */
module HotkeyUI {
  import opened NameDialog
  import opened HotkeyStore
  import opened HotkeyItems

  /** Every generated identifier starts with this prefix, followed by the
      UUID written without braces. */
  const IdPrefix := "chapter_hotkey_"

  /** The key of the host save data under which the list is persisted. */
  const SaveKey := "chapter_hotkeys"

  /** A value of the host's save data: a nested object holding a hotkey
      store, or any value that is not an object. */
  datatype DataValue = Object(hotkeys: Store) | NonObject

  type SaveData = map<string, DataValue>

  class ChapterHotkeyUI {
    var items: seq<ChapterHotkeyItem>
    ghost var entries: seq<Entry>

    /** Rows are distinct objects and `entries` is what they report. */
    ghost predicate Valid()
      reads this, items
    {
      && |entries| == |items|
      && (forall i, j :: 0 <= i < j < |items| ==> items[i] != items[j])
      && forall i :: 0 <= i < |items| ==> entries[i] == items[i].Record()
    }

    constructor ()
      ensures Valid() && entries == []
    {
      items := [];
      entries := [];
    }

    /** Appends a new row; the rows already present are not touched. */
    method Append(id: string, name: string, bindings: Option<Bindings>)
      requires Valid()
      modifies this
      ensures Valid()
      ensures |items| == |old(items)| + 1 && items[..|old(items)|] == old(items)
      ensures entries == old(entries) + [Entry(id, name, if bindings.Some? then bindings.value else NoBindings)]
    {
      var item := new ChapterHotkeyItem(id, name, bindings);
      items := items + [item];
      entries := entries + [item.Record()];
    }

    /**
     The add action. The prompt's outcome and text are inputs and so is the
     UUID the host would generate. Nothing changes when the prompt is
     cancelled or the trimmed name is empty; otherwise exactly one entry is
     added, named by the trimmed text, identified by the prefix and the
     UUID, and without bindings.
     */
    method AddHotkey(accepted: bool, typed: string, uuid: string)
      requires Valid()
      modifies this
      ensures Valid()
      ensures !accepted || Clean(typed) == [] ==> items == old(items) && entries == old(entries)
      ensures accepted && Clean(typed) != [] ==>
        entries == old(entries) + [Entry(IdPrefix + uuid, Clean(typed), NoBindings)]
    {
      var ok, name := AskForName(accepted, typed, "");
      if !ok || name == [] {
        return;
      }
      var id := IdPrefix + uuid;
      Append(id, name, None);
    }

    /**
     The rename action, through the item-data update with the edit role on
     the selected row `k`. Only that entry's name changes; its identifier,
     its bindings and every other entry stay as they were.
     */
    method RenameHotkey(k: int, value: Variant)
      requires Valid() && 0 <= k < |items|
      modifies this, items[k]
      ensures Valid() && items == old(items)
      ensures entries == old(entries)[k := old(entries)[k].(name := ToString(value))]
    {
      var item := items[k];
      item.SetData(EditRole, value);
      entries := entries[k := item.Record()];
    }

    /**
     The save: the target object is cleared, then each row writes its name
     and the host's current bindings under its identifier, read through the
     item-data roles.
     */
    method SaveHotkeys() returns (store: Store)
      requires Valid()
      ensures store == SaveRecords(entries)
    {
      store := map[];
      for i := 0 to |items|
        invariant store == SaveRecords(entries[..i])
      {
        var item := items[i];
        var name := ToString(item.Data(NameRole));
        var uuid := ToString(item.Data(HotkeyIdRole));
        var bindings := ToBindings(item.Data(BindingsRole));
        store := store[uuid := HotkeyObject(Some(name), Some(bindings))];
        assert entries[..i + 1][..i] == entries[..i];
      }
      assert entries[..|items|] == entries;
    }

    /**
     The load: the list is cleared, then one row is created per stored key,
     carrying that key's name and bindings.
     */
    method LoadHotkeys(store: Store)
      requires Valid()
      modifies this
      ensures Valid()
      ensures IsLoadOf(entries, store)
    {
      items := [];
      entries := [];
      var remaining := store.Keys;
      while remaining != {}
        invariant Valid()
        invariant remaining <= store.Keys
        invariant IdSet(entries) == store.Keys - remaining
        invariant DistinctIds(entries)
        invariant forall i :: 0 <= i < |entries| ==>
          entries[i].id in store && entries[i] == LoadedEntry(entries[i].id, store[entries[i].id])
        decreases remaining
      {
        var id :| id in remaining;
        var hk := store[id];
        ghost var before := entries;
        Append(id, LoadedName(hk), LoadedBindings(hk));
        IdSetSnoc(before, entries[|before|]);
        remaining := remaining - {id};
      }
    }

    /**
     The host's save callback. Saving writes the list under the plugin's key
     and keeps every other key; loading replaces the list from that key when
     it holds an object and otherwise leaves the list as it is.
     */
    method LoadSaveHotkeys(saveData: SaveData, saving: bool) returns (newData: SaveData)
      requires Valid()
      modifies this
      ensures Valid()
      ensures saving ==> items == old(items) && entries == old(entries)
      ensures saving ==> newData == saveData[SaveKey := Object(SaveRecords(entries))]
      ensures !saving ==> newData == saveData
      ensures !saving && SaveKey in saveData && saveData[SaveKey].Object? ==>
        IsLoadOf(entries, saveData[SaveKey].hotkeys)
      ensures !saving && !(SaveKey in saveData && saveData[SaveKey].Object?) ==>
        items == old(items) && entries == old(entries)
    {
      newData := saveData;
      if saving {
        var obj := SaveHotkeys();
        newData := saveData[SaveKey := Object(obj)];
      } else if SaveKey in saveData && saveData[SaveKey].Object? {
        LoadHotkeys(saveData[SaveKey].hotkeys);
      }
    }
  }

  /**
   A save followed by a load through the host callback restores the list:
   as long as no identifier occurs twice, the entries afterwards are the
   entries before, each once, in some order.
   */
  method SaveThenLoadRestores(ui: ChapterHotkeyUI, saveData: SaveData)
    requires ui.Valid() && DistinctIds(ui.entries)
    modifies ui
    ensures ui.Valid()
    ensures |ui.entries| == |old(ui.entries)|
    ensures forall e :: e in ui.entries <==> e in old(ui.entries)
  {
    ghost var saved := ui.entries;
    var written := ui.LoadSaveHotkeys(saveData, true);
    var _ := ui.LoadSaveHotkeys(written, false);
    LoadAfterSave(saved, ui.entries);
  }

  /**
   Renaming the selected row and then saving writes the new name under the
   row's unchanged identifier and leaves every other stored key as a save
   before the rename would have written it.
   */
  method RenameThenSave(ui: ChapterHotkeyUI, k: int, value: Variant) returns (store: Store)
    requires ui.Valid() && DistinctIds(ui.entries) && 0 <= k < |ui.items|
    modifies ui, ui.items[k]
    ensures ui.Valid()
    ensures store == SaveRecords(old(ui.entries))[old(ui.entries)[k].id :=
                       Stored(old(ui.entries)[k].(name := ToString(value)))]
  {
    ghost var before := ui.entries;
    ui.RenameHotkey(k, value);
    store := ui.SaveHotkeys();
    SaveAfterRename(before, k, ToString(value));
  }
}
