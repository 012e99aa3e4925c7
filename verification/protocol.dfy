/** The host and the helper together: what an action sent by the host
    (mod.ts) does once the helper (tray.go) has read and decoded it. JSON
    encoding on one side and decoding on the other are taken to agree, so a
    host value reaches the helper as the typed record with the same field
    values; fields the helper's structs do not declare are dropped. */
module Protocol {
  import opened Text
  import Host
  import Helper

  /** The helper's view of a host item: matched by field name, submenu dropped. */
  function WireItem(i: Host.MenuItem): (w: Helper.Item)
    ensures w.title == i.title && w.tooltip == i.tooltip
    ensures w.checked == i.checked && w.enabled == i.enabled
  {
    Helper.Item(i.title, i.tooltip, i.enabled, i.checked)
  }

  function WireItems(items: seq<Host.MenuItem>): (w: seq<Helper.Item>)
    ensures |w| == |items|
    ensures forall i :: 0 <= i < |items| ==> w[i] == WireItem(items[i])
  {
    seq(|items|, i requires 0 <= i < |items| => WireItem(items[i]))
  }

  function WireMenu(m: Host.Menu): (w: Helper.Menu)
    ensures w.icon == m.icon && w.title == m.title && w.tooltip == m.tooltip
    ensures |w.items| == |m.items|
    ensures forall i :: 0 <= i < |m.items| ==> w.items[i] == WireItem(m.items[i])
  {
    Helper.Menu(m.icon, m.title, m.tooltip, WireItems(m.items))
  }

  /** The helper's `Action` decoded from a host action: `type` and `seq_id`
      always, `item` and `menu` when the action has them, zero values otherwise. */
  function WireAction(a: Host.Action): (w: Helper.Action)
    ensures w.kind == Host.Tag(a) && w.seqId == a.seqId
    ensures !a.UpdateMenu? ==> w.item == WireItem(a.item)
    ensures a.UpdateMenu? ==> w.item == Helper.ZeroItem
    ensures !a.UpdateItem? ==> w.menu == WireMenu(a.menu)
    ensures a.UpdateItem? ==> w.menu == Helper.ZeroMenu
  {
    match a
    case UpdateItem(item, k) => Helper.Action("update-item", WireItem(item), Helper.ZeroMenu, k)
    case UpdateMenu(menu, k) => Helper.Action("update-menu", Helper.ZeroItem, WireMenu(menu), k)
    case UpdateMenuAndItem(menu, item, k) => Helper.Action("update-menu-and-item", WireItem(item), WireMenu(menu), k)
  }

  /** Framing round trip: a non-empty line without newlines that the host
      writes is read back by the helper as its trimmed text, and whatever
      follows is left for the next read. */
  lemma WrittenLineReadBack(line: string, rest: string)
    requires line != [] && '\n' !in line
    ensures Helper.ReadLine(Host.WriteLine(line) + rest) == Helper.Line(Trim(line), rest)
  {
    var t := Trim(line);
    assert Host.WriteLine(line) + rest == t + "\n" + rest;
    Helper.ReadStringStopsAtFirst(t, rest, '\n');
    assert (t + "\n")[..|t|] == t;
  }

  /** The tag mismatch: whatever the host's combined action carries, and
      whatever the index, the helper does not recognise its tag and changes nothing. */
  lemma CombinedActionIgnored(os: string, s: Helper.State, menu: Host.Menu, item: Host.MenuItem, k: int)
    ensures var w := WireAction(Host.Render(os, Host.UpdateMenuAndItem(menu, item, k)));
            !Helper.IndexesItems(w.kind) && Helper.Update(s, w) == s
  {
  }

  /** An item update reaches the helper: the rendered item is stored at its
      index, and a click there reports it. */
  lemma ItemUpdateDelivered(os: string, s: Helper.State, item: Host.MenuItem, k: int)
    requires Helper.InRange(s, k)
    ensures var t := Helper.Update(s, WireAction(Host.Render(os, Host.UpdateItem(item, k))));
            Helper.InRange(t, k)
            && t.menu.items[k] == WireItem(Host.UpdateCheckedInLinux(os, item))
            && Helper.Click(t, k).item == WireItem(Host.UpdateCheckedInLinux(os, item))
  {
  }

  /** A menu update changes the helper's title, icon and tooltip; the
      rendered items it carries are ignored by the helper. */
  lemma MenuUpdateKeepsItems(os: string, s: Helper.State, menu: Host.Menu, k: int)
    ensures var t := Helper.Update(s, WireAction(Host.Render(os, Host.UpdateMenu(menu, k))));
            t.menu.items == s.menu.items && t.tray.entries == s.tray.entries
            && t.menu.title == menu.title && t.menu.icon == menu.icon && t.menu.tooltip == menu.tooltip
  {
  }

  /** With the combined tag spelled alike on both sides, the combined action
      updates the item at its index and the menu header. */
  lemma CombinedActionAgreed(os: string, s: Helper.State, menu: Host.Menu, item: Host.MenuItem, k: int)
    requires Helper.InRange(s, k)
    ensures var t := Helper.UpdateAgreed(s, WireAction(Host.Render(os, Host.UpdateMenuAndItem(menu, item, k))));
            t.menu.items[k] == WireItem(Host.UpdateCheckedInLinux(os, item))
            && t.menu.title == menu.title && t.menu.icon == menu.icon && t.menu.tooltip == menu.tooltip
  {
  }

  /** After startup from the host's initial menu, native entry `i` shows host
      item `i`: checked and enabled as the host says, with the rendered title. */
  lemma StartupShowsHostItems(os: string, menu: Host.Menu, s: Helper.State)
    requires Helper.Synced(s) && s.menu == WireMenu(Host.InitialMenu(os, menu))
    ensures |s.tray.entries| == |menu.items|
    ensures forall i :: 0 <= i < |menu.items| ==>
      (s.tray.entries[i].checked <==> menu.items[i].checked)
      && (s.tray.entries[i].enabled <==> menu.items[i].enabled)
      && s.tray.entries[i].title == Host.UpdateCheckedInLinux(os, menu.items[i]).title
    ensures os == Host.Linux ==> forall i :: 0 <= i < |menu.items| && menu.items[i].checked ==>
      s.tray.entries[i].title == menu.items[i].title + Host.CheckStr
  {
  }
}
