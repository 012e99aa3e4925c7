/** The native helper (tray.go) as a pure state machine. The state is the
    decoded menu the helper keeps plus what the native tray shows; reading a
    line, decoding an action, updating the state and building the click event
    are functions of that state. The tray library calls (SetTitle, Check,
    Enable, ...) become fields of `Tray`. */
module Helper {
  import opened Text

  datatype Item = Item(title: string, tooltip: string, enabled: bool, checked: bool)

  datatype Menu = Menu(icon: string, title: string, tooltip: string, items: seq<Item>)

  /** One decoded input line, and also the shape of the click event written back. */
  datatype Action = Action(kind: string, item: Item, menu: Menu, seqId: int)

  /** Go's zero values: what a struct holds when nothing was decoded into it. */
  const ZeroItem := Item("", "", false, false)
  const ZeroMenu := Menu("", "", "", [])
  const ZeroAction := Action("", ZeroItem, ZeroMenu, 0)

  /** One native menu entry as the tray library shows it. */
  datatype Entry = Entry(title: string, tooltip: string, checked: bool, enabled: bool)

  /** What the native tray shows. `icon` is the text whose base64 decoding is displayed. */
  datatype Tray = Tray(icon: string, title: string, tooltip: string, entries: seq<Entry>)

  datatype State = State(menu: Menu, tray: Tray)

  /** The entry `AddMenuItem(title, tooltip)` followed by Check/Uncheck and Enable/Disable produces. */
  function EntryOf(item: Item): (e: Entry)
    ensures e.checked <==> item.checked
    ensures e.enabled <==> item.enabled
    ensures e.title == item.title && e.tooltip == item.tooltip
  {
    Entry(item.title, item.tooltip, item.checked, item.enabled)
  }

  /** The tray shows exactly the stored menu: header fields, and entry `i` for item `i`. */
  ghost predicate Synced(s: State) {
    && s.tray.icon == s.menu.icon
    && s.tray.title == s.menu.title
    && s.tray.tooltip == s.menu.tooltip
    && |s.tray.entries| == |s.menu.items|
    && forall i :: 0 <= i < |s.menu.items| ==> s.tray.entries[i] == EntryOf(s.menu.items[i])
  }

  /** `k` indexes both the native entries and the stored items; outside this
      range the Go slice index panics. */
  predicate InRange(s: State, k: int) {
    0 <= k < |s.tray.entries| && k < |s.menu.items|
  }

  /** The result of `bufio.Reader.ReadString(delim)` on buffered input `buf`. */
  datatype Read = Read(data: string, rest: string, err: bool)

  /** The index of the first `delim` in `buf`, or `|buf|` when there is none. */
  function FirstDelim(buf: string, delim: char): (k: nat)
    ensures k <= |buf|
    ensures forall i :: 0 <= i < k ==> buf[i] != delim
    ensures k < |buf| ==> buf[k] == delim
  {
    if buf == [] || buf[0] == delim then 0 else 1 + FirstDelim(buf[1..], delim)
  }

  /** `ReadString`: the data up to and including the first `delim`; without
      one, everything that is left, together with an error (EOF). */
  function ReadString(buf: string, delim: char): (r: Read)
    ensures r.data + r.rest == buf
    ensures r.err <==> delim !in buf
    ensures !r.err ==> |r.data| >= 1 && r.data[|r.data| - 1] == delim && delim !in r.data[..|r.data| - 1]
    ensures r.err ==> r.data == buf && r.rest == []
  {
    var k := FirstDelim(buf, delim);
    if k == |buf| then Read(buf, [], true)
    else
      assert buf[..k + 1][..k] == buf[..k];
      Read(buf[..k + 1], buf[k + 1..], false)
  }

  /** `ReadString` stops at the first delimiter: reading `a + [delim] + rest`
      with no delimiter in `a` yields `a + [delim]` and leaves `rest`. */
  lemma ReadStringStopsAtFirst(a: string, rest: string, delim: char)
    requires delim !in a
    ensures ReadString(a + [delim] + rest, delim) == Read(a + [delim], rest, false)
  {
    var buf := a + [delim] + rest;
    var k := FirstDelim(buf, delim);
    assert buf[|a|] == delim;
    assert forall i :: 0 <= i < |a| ==> buf[i] == a[i];
    assert buf[..k + 1] == a + [delim];
    assert buf[k + 1..] == rest;
  }

  /** The text `readLine` hands to the JSON decoder and the input left for the next read. */
  datatype Line = Line(text: string, rest: string)

  /** `readLine`: read through the next newline and drop the last character
      read. With a newline that is the newline itself; at end of input
      without one it is a real character of the last line. */
  function ReadLine(buf: string): (r: Line)
    ensures '\n' in buf ==> r.text + "\n" + r.rest == buf && '\n' !in r.text
    ensures '\n' !in buf && buf != [] ==> r.text == buf[..|buf| - 1] && r.rest == []
    ensures buf == [] ==> r == Line([], [])
  {
    var read := ReadString(buf, '\n');
    if |read.data| < 1 then Line([], read.rest)
    else
      assert read.data == read.data[..|read.data| - 1] + [read.data[|read.data| - 1]];
      Line(read.data[..|read.data| - 1], read.rest)
  }

  /** `readAction`: an empty line leaves the zero `Action` untouched (the
      decoder reports end of input); a non-empty line is whatever `decode`,
      the JSON decoder, makes of it. */
  function ReadAction(line: string, decode: string -> Action): (a: Action)
    ensures line == [] ==> a == ZeroAction && a.kind == []
    ensures line != [] ==> a == decode(line)
  {
    if line == [] then ZeroAction else decode(line)
  }

  /** Decoding the first input line into the initial menu, which starts as the zero `Menu`. */
  function ReadMenu(line: string, decode: string -> Menu): (m: Menu)
    ensures line == [] ==> m == ZeroMenu && m.items == []
    ensures line != [] ==> m == decode(line)
  {
    if line == [] then ZeroMenu else decode(line)
  }

  /** Startup: set the tray icon, title and tooltip from `menu`, then add one
      native entry per item, in order. */
  method Start(menu: Menu) returns (s: State)
    ensures s.menu == menu
    ensures Synced(s)
    ensures |s.tray.entries| == |menu.items|
    ensures forall i :: 0 <= i < |menu.items| ==>
      (s.tray.entries[i].checked <==> menu.items[i].checked) && (s.tray.entries[i].enabled <==> menu.items[i].enabled)
  {
    var entries: seq<Entry> := [];
    var i := 0;
    while i < |menu.items|
      invariant 0 <= i <= |menu.items|
      invariant |entries| == i
      invariant forall j :: 0 <= j < i ==> entries[j] == EntryOf(menu.items[j])
    {
      var item := menu.items[i];
      var entry := Entry(item.title, item.tooltip, false, false);
      if item.checked {
        entry := entry.(checked := true);
      } else {
        entry := entry.(checked := false);
      }
      if item.enabled {
        entry := entry.(enabled := true);
      } else {
        entry := entry.(enabled := false);
      }
      entries := entries + [entry];
      i := i + 1;
    }
    s := State(menu, Tray(menu.icon, menu.title, menu.tooltip, entries));
  }

  /** `updateItem`: store the action's item at `seqId` and redraw that entry. */
  function UpdateItem(s: State, a: Action): (r: State)
    requires InRange(s, a.seqId)
    ensures |r.menu.items| == |s.menu.items| && |r.tray.entries| == |s.tray.entries|
    ensures r.menu.items[a.seqId] == a.item
    ensures r.tray.entries[a.seqId] == EntryOf(a.item)
    ensures forall j :: 0 <= j < |s.menu.items| && j != a.seqId ==> r.menu.items[j] == s.menu.items[j]
    ensures forall j :: 0 <= j < |s.tray.entries| && j != a.seqId ==> r.tray.entries[j] == s.tray.entries[j]
    ensures r.menu.icon == s.menu.icon && r.menu.title == s.menu.title && r.menu.tooltip == s.menu.tooltip
    ensures r.tray.icon == s.tray.icon && r.tray.title == s.tray.title && r.tray.tooltip == s.tray.tooltip
  {
    var k := a.seqId;
    var item := a.item;
    var entry := s.tray.entries[k];
    var entry := entry.(checked := item.checked);
    var entry := entry.(enabled := item.enabled);
    var entry := entry.(title := item.title, tooltip := item.tooltip);
    State(s.menu.(items := s.menu.items[k := item]), s.tray.(entries := s.tray.entries[k := entry]))
  }

  /** `updateMenu`: copy the action menu's title, icon and tooltip, each only
      when it differs. The stored items and the native entries are untouched,
      whatever items the action's menu carries. */
  function UpdateMenu(s: State, a: Action): (r: State)
    ensures r.menu.title == a.menu.title && r.menu.icon == a.menu.icon && r.menu.tooltip == a.menu.tooltip
    ensures Synced(s) ==> Synced(r)
    ensures r.menu.items == s.menu.items && r.tray.entries == s.tray.entries
  {
    var m := a.menu;
    var s := if s.menu.title != m.title
      then State(s.menu.(title := m.title), s.tray.(title := m.title)) else s;
    var s := if s.menu.icon != m.icon
      then State(s.menu.(icon := m.icon), s.tray.(icon := m.icon)) else s;
    var s := if s.menu.tooltip != m.tooltip
      then State(s.menu.(tooltip := m.tooltip), s.tray.(tooltip := m.tooltip)) else s;
    s
  }

  /** Applying the same menu update twice is the same as applying it once. */
  lemma UpdateMenuIdempotent(s: State, a: Action)
    ensures UpdateMenu(UpdateMenu(s, a), a) == UpdateMenu(s, a)
  {
  }

  /** The combined tag this helper recognises. */
  const ItemAndMenu := "update-item-and-menu"

  /** The tags whose handling indexes the items by `seqId`. */
  predicate IndexesItems(kind: string) {
    kind == "update-item" || kind == ItemAndMenu
  }

  /** `update`: dispatch on the action's `Type` string. */
  function Update(s: State, a: Action): (r: State)
    requires IndexesItems(a.kind) ==> InRange(s, a.seqId)
    ensures a.kind == "update-item" ==> r == UpdateItem(s, a)
    ensures a.kind == "update-menu" ==> r == UpdateMenu(s, a)
    ensures a.kind == "update-item-and-menu" ==> r == UpdateMenu(UpdateItem(s, a), a)
    ensures a.kind != "update-item" && a.kind != "update-menu" && a.kind != "update-item-and-menu" ==> r == s
  {
    match a.kind
    case "update-item" => UpdateItem(s, a)
    case "update-menu" => UpdateMenu(s, a)
    case "update-item-and-menu" =>
      var s' := UpdateItem(s, a);
      UpdateMenu(s', a)
    case _ => s
  }

  /** Every update keeps the tray showing exactly the stored menu. */
  lemma UpdatePreservesSynced(s: State, a: Action)
    requires Synced(s)
    requires IndexesItems(a.kind) ==> InRange(s, a.seqId)
    ensures Synced(Update(s, a))
  {
  }

  /** An empty input line, which is all the reader yields once standard input
      is closed, decodes to the zero action and changes nothing. */
  lemma EmptyLineChangesNothing(s: State, decode: string -> Action)
    ensures var a := ReadAction(ReadLine([]).text, decode);
            !IndexesItems(a.kind) && Update(s, a) == s
  {
  }

  /** The combined tag as the host spells it. */
  const MenuAndItem := "update-menu-and-item"

  /** The tags the corrected dispatch indexes the items for: the helper's own
      combined spelling is still accepted beside the host's. */
  predicate AgreedIndexesItems(kind: string) {
    IndexesItems(kind) || kind == MenuAndItem
  }

  /** `update` with the combined tag accepted as the host spells it,
      `"update-menu-and-item"`, as well as in the helper's spelling. */
  function UpdateAgreed(s: State, a: Action): (r: State)
    requires AgreedIndexesItems(a.kind) ==> InRange(s, a.seqId)
    ensures a.kind == "update-item" ==> r == UpdateItem(s, a)
    ensures a.kind == "update-menu" ==> r == UpdateMenu(s, a)
    ensures a.kind == MenuAndItem || a.kind == ItemAndMenu ==> r == UpdateMenu(UpdateItem(s, a), a)
    ensures a.kind == MenuAndItem ==> r.menu.items[a.seqId] == a.item && r.menu.title == a.menu.title
    ensures !AgreedIndexesItems(a.kind) && a.kind != "update-menu" ==> r == s
  {
    match a.kind
    case "update-item" => UpdateItem(s, a)
    case "update-menu" => UpdateMenu(s, a)
    case "update-menu-and-item" =>
      var s' := UpdateItem(s, a);
      UpdateMenu(s', a)
    case "update-item-and-menu" =>
      var s' := UpdateItem(s, a);
      UpdateMenu(s', a)
    case _ => s
  }

  /** The corrected dispatch differs from `update` only on the host's combined
      tag, which `update` ignores; on every other tag the two agree. */
  lemma UpdateAgreedExtendsUpdate(s: State, a: Action)
    requires AgreedIndexesItems(a.kind) ==> InRange(s, a.seqId)
    ensures a.kind != MenuAndItem ==> UpdateAgreed(s, a) == Update(s, a)
    ensures a.kind == MenuAndItem ==> Update(s, a) == s && UpdateAgreed(s, a) == UpdateMenu(UpdateItem(s, a), a)
  {
  }

  /** The click event for the native entry at `k`: the item stored at `k`, tagged with `k`. */
  function Click(s: State, k: int): (e: Action)
    requires InRange(s, k)
    ensures e.kind == "clicked" && e.seqId == k
    ensures e.item == s.menu.items[k] && e.menu == ZeroMenu
    ensures Synced(s) ==> EntryOf(e.item) == s.tray.entries[k]
  {
    Action("clicked", s.menu.items[k], ZeroMenu, k)
  }

  /** After an item update at `k`, a click on `k` reports the new item and a
      click anywhere else reports what it reported before. */
  lemma ClickAfterUpdateItem(s: State, a: Action, k: int)
    requires InRange(s, a.seqId) && InRange(s, k)
    ensures var t := UpdateItem(s, a);
            InRange(t, k) && (k == a.seqId ==> Click(t, k).item == a.item)
            && (k != a.seqId ==> Click(t, k) == Click(s, k))
  {
  }
}
