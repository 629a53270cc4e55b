/**
 One row of the chapter hotkey list. The row stores the chapter name and the
 identifier itself; the binding configuration lives in the host's hotkey
 registry and is read from it on every query (here the field
 `hostBindings` stands for that live host state). Everything the list
 widget stores on its own behalf, the display text among it, is a map from
 item-data role to value.
 */
module HotkeyItems {
  import opened HotkeyStore

  /** Item-data roles as the toolkit numbers them, and the three roles the
      plugin adds just above the first user role. */
  const DisplayRole: int := 0
  const EditRole: int := 2
  const UserRole: int := 0x0100
  const NameRole: int := UserRole
  const HotkeyIdRole: int := UserRole + 1
  const BindingsRole: int := UserRole + 2

  /** A value passed through the item-data interface. */
  datatype Variant = Invalid | Text(text: string) | BindingsPointer(bindings: Bindings)

  /** Conversion of a value to a string: anything that is not text reads as
      the empty string. */
  function ToString(v: Variant): string {
    if v.Text? then v.text else ""
  }

  /** Conversion of a value to a binding array: anything else reads as an
      array with no bindings. */
  function ToBindings(v: Variant): Bindings {
    if v.BindingsPointer? then v.bindings else NoBindings
  }

  class ChapterHotkeyItem {
    var hotkeyUUID: string
    var chapterName: string
    var hostBindings: Bindings
    var baseData: map<int, Variant>

    /**
     A new row for identifier `id` and name `name`; the display text is the
     name. A row created without a binding array starts with no bindings;
     one created with an array has exactly those bindings in the host.
     */
    constructor (id: string, name: string, bindings: Option<Bindings>)
      ensures hotkeyUUID == id && chapterName == name
      ensures hostBindings == if bindings.Some? then bindings.value else NoBindings
      ensures baseData == map[DisplayRole := Text(name)]
      ensures Data(DisplayRole) == Data(EditRole) == Text(name)
    {
      hotkeyUUID := id;
      chapterName := name;
      baseData := map[DisplayRole := Text(name)];
      if bindings.Some? {
        hostBindings := bindings.value;
      } else {
        hostBindings := NoBindings;
      }
    }

    /** What the list widget's own storage holds for `role`. The toolkit
        keeps the edit role and the display role as one value. */
    function BaseData(role: int): Variant
      reads this
    {
      var r := if role == EditRole then DisplayRole else role;
      if r in baseData then baseData[r] else Invalid
    }

    /** The item-data query: the three plugin roles are answered from the
        row itself and the host; every other role from the widget storage,
        where the edit role reads the display text. */
    function Data(role: int): (v: Variant)
      reads this
      ensures role == NameRole ==> v == Text(chapterName)
      ensures role == HotkeyIdRole ==> v == Text(hotkeyUUID)
      ensures role == BindingsRole ==> v == BindingsPointer(hostBindings)
      ensures role == EditRole ==> v == Data(DisplayRole)
      ensures role !in {NameRole, HotkeyIdRole, BindingsRole, EditRole} ==>
        v == if role in baseData then baseData[role] else Invalid
    {
      if role == NameRole then Text(chapterName)
      else if role == HotkeyIdRole then Text(hotkeyUUID)
      else if role == BindingsRole then BindingsPointer(hostBindings)
      else BaseData(role)
    }

    /** The row as a plain record, read through the three plugin roles as a
        save reads it. */
    function Record(): (e: Entry)
      reads this
      ensures e.id == hotkeyUUID && e.name == chapterName && e.bindings == hostBindings
    {
      Entry(ToString(Data(HotkeyIdRole)), ToString(Data(NameRole)), ToBindings(Data(BindingsRole)))
    }

    /**
     The item-data update. Through the name role or the edit role it renames
     the row: the chapter name and the display text both become the new
     value. Any other role goes to the widget storage and leaves the name
     alone. The identifier and the bindings never change.
     */
    method SetData(role: int, value: Variant)
      modifies this
      ensures hotkeyUUID == old(hotkeyUUID) && hostBindings == old(hostBindings)
      ensures role == NameRole || role == EditRole ==>
        chapterName == ToString(value) && baseData == old(baseData)[DisplayRole := Text(ToString(value))]
      ensures role == NameRole || role == EditRole ==>
        Data(NameRole) == Data(DisplayRole) == Data(EditRole) == Text(ToString(value))
      ensures !(role == NameRole || role == EditRole) ==>
        chapterName == old(chapterName) && baseData == old(baseData)[role := value]
    {
      if role == NameRole || role == EditRole {
        var newName := ToString(value);
        chapterName := newName;
        baseData := baseData[DisplayRole := Text(newName)];
      } else {
        baseData := baseData[role := value];
      }
    }
  }
}
