# Chapter hotkeys: a Dafny model

This project models the logic of an OBS plugin that keeps a list of named
chapter hotkeys. Each entry has three parts: a generated identifier, a
chapter name the user can edit, and the key bindings the host's hotkey
registry holds for it. Pressing a bound key adds a chapter marker with that
name to the running recording. The list is persisted in the host's save data
under the key `"chapter_hotkeys"`.

The model covers four parts of that logic:

- **Name prompt** (`name_dialog.dfy`, module `NameDialog`). This is the
  space-and-tab trimming applied to a typed name, with both of its erase
  loops. It also models the prompt's outcome: cancelled, or accepted with
  the trimmed text.
- **Store** (`hotkey_store.dfy`, module `HotkeyStore`). Entries are plain
  records. The host save object is a map from identifier to a value. A save
  writes `{name, bindings}` under each identifier. A load accepts any value
  and reads a missing or mistyped member as an empty name or as no bindings.
  This module gives the specification of a save and of a load, with the
  round-trip lemmas in both directions.
- **List row** (`hotkey_item.dfy`, module `HotkeyItems`). The list-widget
  item is a class with the source's fields. It answers item-data queries by
  role, and its item-data update renames it without touching its identifier.
- **Dialog** (`hotkey_ui.dfy`, module `HotkeyUI`). The list dialog is a class
  that holds its rows. It has the add, rename, save and load actions and the
  host's save/load callback. A ghost field `entries` holds the rows as
  records.

Several inputs that the program gets from the outside are parameters in the
model:

- whether the user confirmed the dialog, and the text they typed;
- the UUID the host generates for a new entry;
- the index of the selected row;
- the host save data.

`CleanWhitespace` works on a `std::string` in place. In the model it takes
the string and returns its new value. The save in the source clears the
host object it is given before writing to it. In the model it returns the
new store.

## Model

| member | source | states |
|---|---|---|
| NameDialog.IsWhitespace | src/chapter-hotkeys.cpp:210-213 | a character is whitespace exactly when it is one of the two characters of `" \t"`; newlines and every other character are not |
| NameDialog.TrimBack | src/chapter-hotkeys.cpp:217-218 | the first loop's result is a prefix of the input, the part it cuts off is all spaces and tabs, and the result does not end in one |
| NameDialog.TrimFront | src/chapter-hotkeys.cpp:219-220 | the second loop's result is a suffix of its input, the part it cuts off is all spaces and tabs, and the result does not start with one |
| NameDialog.Clean | src/chapter-hotkeys.cpp:215-221 | the trimmed name is no longer than the input and has no space or tab at either end |
| NameDialog.CleanWhitespace | src/chapter-hotkeys.cpp:215-221 | the two erase loops, back first and then front, leave exactly `Clean` of the input |
| NameDialog.CleanSlice | src/chapter-hotkeys.cpp:217-220 | the trimmed name is a contiguous slice `s[i..j]` of the input; only spaces and tabs lie before `i` and after `j`, so interior characters, blanks included, are kept |
| NameDialog.SameBounds | src/chapter-hotkeys.cpp:215-221 | two slices that both cut off only blanks and keep none at their ends have the same bounds, or are both empty |
| NameDialog.CleanUnique | src/chapter-hotkeys.cpp:215-221 | every slice that cuts off only blanks and leaves none at its ends equals the trimmed name, so the trim is exactly that slice |
| NameDialog.CleanEmptyIffAllWhitespace | src/chapter-hotkeys.cpp:210-221 | the trimmed name is empty if and only if the input consists only of spaces and tabs |
| NameDialog.CleanKeepsTrimmed | src/chapter-hotkeys.cpp:210-221 | a string whose end characters are not space or tab, such as a newline, is returned unchanged |
| NameDialog.CleanIdempotent | src/chapter-hotkeys.cpp:215-221 | trimming an already trimmed name changes nothing |
| NameDialog.CleanExampleInterior | src/chapter-hotkeys.cpp:215-221 | `"  a b\t"` trims to `"a b"`: the blanks at the ends go and the interior blank stays |
| NameDialog.CleanExampleBlank | src/chapter-hotkeys.cpp:210-221 | `"\t\t"` trims to the empty string |
| NameDialog.CleanExampleNewline | src/chapter-hotkeys.cpp:210-221 | `" \na\n "` trims to `"\na\n"`: a newline is not whitespace, so it survives at either end |
| NameDialog.AskForName | src/chapter-hotkeys.cpp:236-242 | a cancelled prompt returns false and leaves the output text as it was; an accepted prompt returns true with the trimmed typed text |
| HotkeyStore.SaveRecords | src/chapter-hotkeys.cpp:90-108 | the store written by a save has exactly the identifiers of the list as its keys |
| HotkeyStore.SaveRecordsLastWins | src/chapter-hotkeys.cpp:94-107 | under an entry's identifier the store holds that entry's name and bindings, unless a later entry reuses the identifier |
| HotkeyStore.LoadedEntry | src/chapter-hotkeys.cpp:74-81 | the entry a load creates keeps the key as its identifier; a value that is not an object, a name that is not a string and bindings that are not an array read as empty name and no bindings, so only a value with a string name and a binding array is what a save of that entry would write |
| HotkeyStore.SaveAfterLoad | src/chapter-hotkeys.cpp:67-108 | saving a list just loaded from a store writes the same keys, each with its value normalised to an object holding the name and bindings the load read from it |
| HotkeyStore.SaveAfterLoadWellFormed | src/chapter-hotkeys.cpp:67-108 | when every stored value is an object with a string name and a binding array, saving a freshly loaded list writes back exactly that store |
| HotkeyStore.SaveRecordsWellFormed | src/chapter-hotkeys.cpp:103-106 | every value a save writes is an object with a string `"name"` and a `"bindings"` array |
| HotkeyStore.LoadAfterSave | src/chapter-hotkeys.cpp:67-108 | loading what a list with distinct identifiers saved gives the same number of entries and the same records (id, name, bindings) |
| HotkeyStore.SaveAfterRename | src/chapter-hotkeys.cpp:161-176 | after a rename, a save differs only in the name stored under the renamed entry's unchanged identifier |
| HotkeyItems.ChapterHotkeyItem.constructor | src/chapter-hotkeys.cpp:114-131 | a new row holds the given identifier and name and shows the name as its display and edit text; it has the given bindings, or none when no bindings array is passed |
| HotkeyItems.ChapterHotkeyItem.Data | src/chapter-hotkeys.cpp:147-159 | the Name, HotkeyId and Bindings roles answer from the row and the host; every other role answers from the widget's own storage, where the edit role reads the display text |
| HotkeyItems.ChapterHotkeyItem.Record | src/chapter-hotkeys.cpp:147-159 | the Name, HotkeyId and Bindings roles report the row's name, its identifier and the host's current bindings |
| HotkeyItems.ChapterHotkeyItem.SetData | src/chapter-hotkeys.cpp:161-176 | the Name and Edit roles set both the name and the display text to the new value, so the Name, Display and Edit roles then all read it; other roles go to the widget's own storage and keep the name; the identifier and bindings never change |
| HotkeyUI.ChapterHotkeyUI.constructor | src/chapter-hotkeys.cpp:13-20 | the dialog starts with an empty list |
| HotkeyUI.ChapterHotkeyUI.Append | src/chapter-hotkeys.cpp:81-82 | adding a row appends exactly one entry and leaves the rows already there untouched |
| HotkeyUI.ChapterHotkeyUI.AddHotkey | src/chapter-hotkeys.cpp:31-47 | a cancelled prompt or an empty trimmed name leaves the list unchanged; otherwise one entry is appended with the trimmed name, the id `chapter_hotkey_` followed by the UUID, and no bindings |
| HotkeyUI.ChapterHotkeyUI.RenameHotkey | src/chapter-hotkeys.cpp:56-65 | renaming the selected row through the edit role changes only that entry's name |
| HotkeyUI.ChapterHotkeyUI.SaveHotkeys | src/chapter-hotkeys.cpp:90-108 | the store written is the save specification of the current list, with each row read through its item-data roles |
| HotkeyUI.ChapterHotkeyUI.LoadHotkeys | src/chapter-hotkeys.cpp:67-88 | after a load the list has one entry per stored key, no identifier twice, and each entry is what the load reads from the value under its key |
| HotkeyUI.ChapterHotkeyUI.LoadSaveHotkeys | src/chapter-hotkeys.cpp:249-261 | saving writes the list under `"chapter_hotkeys"` and keeps the list and every other key; loading replaces the list only when that key holds an object, and otherwise leaves it as it was |
| HotkeyUI.SaveThenLoadRestores | src/chapter-hotkeys.cpp:249-261 | a save followed by a load through the callback restores the same entries, each once, when identifiers are distinct |
| HotkeyUI.RenameThenSave | src/chapter-hotkeys.cpp:161-176 | a rename followed by a save stores the new name under the old identifier and changes no other key |

## Left out

- Widget construction, layout, modality and window flags, and the
  show/hide toggle of the dialog. These are presentation only.
- Registering and unregistering the host hotkey, setting its description,
  and the pressed callback that adds a chapter marker. These are calls into
  the host with no result. The host's binding state for a row is the field
  `hostBindings`. Loading a binding array into the host and saving it back
  is taken to return the same array.
- Changes the user makes to a binding in the host's settings between a load
  and a save. The host does this, not the plugin.
- UUID generation. The UUID is a parameter, so the model cannot promise
  that identifiers are distinct. The round-trip lemmas require distinct
  identifiers. With a repeated identifier, the save keeps the record of the
  last entry that has it.
- Qt's item storage is modelled only as far as the list uses it: a map
  from role to value in which the edit role and the display role share
  one value.
- Translation lookup and the formatting of the hotkey label from its
  template. UTF-8 conversion between string types is also left out.
- The ordering of the host save object and `sortItems`. A load takes keys in
  an unspecified order, so the round-trip properties are stated up to order.
- The remove action. It calls `removeItemWidget`, which only detaches a
  widget shown on the row. The row stays in the list, so nothing about the
  entry count is claimed.
- `editItem`. It is interactive; the model covers only its committed effect
  through `SetData` with the edit role.
- The plugin's start-up wiring: the menu action, the save-callback
  registration and the global dialog pointer. The dialog is passed to the
  callback explicitly instead.
- HotkeyUI.ChapterHotkeyUI.RenameHotkey: requires a selected row. The source
  dereferences the current item without checking for null.
