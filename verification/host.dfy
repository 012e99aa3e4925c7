/** The host side (mod.ts): the Linux "checked" render transform, the
    per-tag transform applied before an action is sent, the constructor's
    transform of the initial menu, and the framing of one line written to
    the helper's standard input. The source mutates item objects in place
    and returns the same object; here each transform returns the new value.
    A caller that keeps the returned value models the host holding the
    mutated object, and `RenderShared` models one object reached twice by a
    single `sendAction`. */
module Host {
  import opened Text

  /** A menu item as the host holds it. `items` is the optional submenu an
      application may attach; it travels with the item but is never transformed. */
  datatype MenuItem = MenuItem(title: string, tooltip: string, checked: bool, enabled: bool, items: seq<MenuItem>)

  datatype Menu = Menu(icon: string, title: string, tooltip: string, items: seq<MenuItem>)

  /** The three actions a host can send; `seqId` is the index of the item in the helper's menu. */
  datatype Action =
    | UpdateItem(item: MenuItem, seqId: int)
    | UpdateMenu(menu: Menu, seqId: int)
    | UpdateMenuAndItem(menu: Menu, item: MenuItem, seqId: int)

  /** The `type` string each action carries on the wire. */
  function Tag(a: Action): (t: string)
    ensures t == "update-item" <==> a.UpdateItem?
    ensures t == "update-menu" <==> a.UpdateMenu?
    ensures t == "update-menu-and-item" <==> a.UpdateMenuAndItem?
  {
    match a
    case UpdateItem(_, _) => "update-item"
    case UpdateMenu(_, _) => "update-menu"
    case UpdateMenuAndItem(_, _, _) => "update-menu-and-item"
  }

  /** The operating system name the transform is keyed on. */
  const Linux := "linux"

  /** The suffix that marks a checked item on Linux: space, '(', SQUARE ROOT, ')'. */
  const CheckStr := " (\U{221A})"

  /** The text a regular expression built from `src` must match, for a `src`
      whose only metacharacters are group parentheses: a group matches what
      its contents match, so the parentheses themselves match no text. */
  function GroupedLiteral(src: string): (r: string)
    ensures |r| <= |src|
    ensures forall c :: c in r <==> c in src && c != '(' && c != ')'
    ensures '(' !in src && ')' !in src ==> r == src
  {
    if src == [] then []
    else
      var rest := GroupedLiteral(src[1..]);
      assert forall c :: c in src <==> c == src[0] || c in src[1..];
      if src[0] == '(' || src[0] == ')' then rest else [src[0]] + rest
  }

  /** The literal of a concatenation is the concatenation of the literals: the
      characters that remain keep their order. */
  lemma {:induction false} GroupedLiteralConcat(a: string, b: string)
    ensures GroupedLiteral(a + b) == GroupedLiteral(a) + GroupedLiteral(b)
  {
    if a == [] {
      assert a + b == b;
    } else {
      GroupedLiteralConcat(a[1..], b);
      assert (a + b)[1..] == a[1..] + b;
    }
  }

  /** The pattern `RegExp(CheckStr + "$")` matches the two characters
      space, SQUARE ROOT at the end of the title, not `CheckStr`. */
  lemma CheckPatternMatchesBareMark()
    ensures GroupedLiteral(CheckStr) == " \U{221A}"
    ensures GroupedLiteral(CheckStr) != CheckStr
  {
  }

  /** `title.replace(RegExp(CheckStr + "$"), "")`: the pattern is anchored at
      the end of the input, so at most one match, at the very end, is removed. */
  function StripCheckPattern(title: string): (r: string)
    ensures EndsWith(title, " \U{221A}") ==> r == title[..|title| - 2]
    ensures !EndsWith(title, " \U{221A}") ==> r == title
  {
    CheckPatternMatchesBareMark();
    var lit := GroupedLiteral(CheckStr);
    if EndsWith(title, lit) then title[..|title| - |lit|] else title
  }

  /** `updateCheckedInLinux` with the platform as a parameter. */
  function UpdateCheckedInLinux(os: string, item: MenuItem): (r: MenuItem)
    ensures os != Linux ==> r == item
    ensures r.tooltip == item.tooltip && r.checked == item.checked
    ensures r.enabled == item.enabled && r.items == item.items
    ensures os == Linux && item.checked ==> r.title == item.title + " (\U{221A})"
    ensures os == Linux && !item.checked && EndsWith(item.title, " \U{221A}") ==>
      r.title == item.title[..|item.title| - 2]
    ensures os == Linux && !item.checked && !EndsWith(item.title, " \U{221A}") ==>
      r.title == item.title
  {
    if os != Linux then item
    else if item.checked then item.(title := item.title + CheckStr)
    else item.(title := StripCheckPattern(item.title))
  }

  /** Appending is unconditional: rendering a checked item twice stacks two suffixes. */
  lemma CheckedTwiceStacksSuffix(item: MenuItem)
    requires item.checked
    ensures UpdateCheckedInLinux(Linux, UpdateCheckedInLinux(Linux, item)).title
         == item.title + CheckStr + CheckStr
    ensures UpdateCheckedInLinux(Linux, UpdateCheckedInLinux(Linux, item))
         != UpdateCheckedInLinux(Linux, item)
  {
  }

  /** A title carrying the checked suffix keeps it when the item is unchecked:
      it ends with ')', which the strip pattern never matches. */
  lemma UncheckKeepsCheckSuffix(item: MenuItem)
    requires !item.checked && EndsWith(item.title, CheckStr)
    ensures UpdateCheckedInLinux(Linux, item) == item
  {
  }

  /** Checking and then unchecking does not restore the original title. */
  lemma CheckThenUncheckKeepsSuffix(item: MenuItem)
    ensures var checked := UpdateCheckedInLinux(Linux, item.(checked := true));
            var unchecked := UpdateCheckedInLinux(Linux, checked.(checked := false));
            unchecked.title == item.title + CheckStr && unchecked.title != item.title
  {
    var checked := UpdateCheckedInLinux(Linux, item.(checked := true));
    assert EndsWith(checked.title, CheckStr);
    UncheckKeepsCheckSuffix(checked.(checked := false));
  }

  /** The host holds the transformed object and toggles `checked` on it (as the
      example application's click handlers do). Check, uncheck, check again
      leaves two suffixes on the title. */
  lemma ToggleAccumulatesSuffix(item: MenuItem)
    requires item.checked
    ensures var a := UpdateCheckedInLinux(Linux, item);
            var b := UpdateCheckedInLinux(Linux, a.(checked := false));
            var c := UpdateCheckedInLinux(Linux, b.(checked := true));
            b.title == item.title + CheckStr && c.title == item.title + CheckStr + CheckStr
  {
    var a := UpdateCheckedInLinux(Linux, item);
    UncheckKeepsCheckSuffix(a.(checked := false));
  }

  /** `updateCheckedInLinux` with the pattern escaped, `RegExp(" \\(√\\)$")`,
      so that unchecking removes one trailing `CheckStr` exactly. */
  function UpdateCheckedEscaped(os: string, item: MenuItem): (r: MenuItem)
    ensures os != Linux ==> r == item
    ensures r.tooltip == item.tooltip && r.checked == item.checked
    ensures r.enabled == item.enabled && r.items == item.items
    ensures os == Linux && item.checked ==> r.title == item.title + CheckStr
    ensures os == Linux && !item.checked ==> (EndsWith(item.title, CheckStr) <==> r.title + CheckStr == item.title)
    ensures !EndsWith(item.title, CheckStr) && !item.checked ==> r == item
  {
    if os != Linux then item
    else if item.checked then item.(title := item.title + CheckStr)
    else if EndsWith(item.title, CheckStr) then
      assert item.title[..|item.title| - 4] + CheckStr == item.title;
      item.(title := item.title[..|item.title| - |CheckStr|])
    else item
  }

  /** With the escaped pattern, checking then unchecking restores every title. */
  lemma EscapedCheckThenUncheckRestores(item: MenuItem)
    ensures var checked := UpdateCheckedEscaped(Linux, item.(checked := true));
            UpdateCheckedEscaped(Linux, checked.(checked := false)).title == item.title
  {
  }

  /** With the escaped pattern, the toggle sequence of `ToggleAccumulatesSuffix`
      alternates between the marked and the original title. */
  lemma EscapedToggleAlternates(item: MenuItem)
    requires item.checked
    ensures var a := UpdateCheckedEscaped(Linux, item);
            var b := UpdateCheckedEscaped(Linux, a.(checked := false));
            var c := UpdateCheckedEscaped(Linux, b.(checked := true));
            b.title == item.title && c.title == item.title + CheckStr
  {
  }

  /** `items.map(updateCheckedInLinux)`: each top-level item transformed, count and order kept. */
  function RenderItems(os: string, items: seq<MenuItem>): (r: seq<MenuItem>)
    ensures |r| == |items|
    ensures forall i :: 0 <= i < |items| ==> r[i] == UpdateCheckedInLinux(os, items[i])
  {
    seq(|items|, i requires 0 <= i < |items| => UpdateCheckedInLinux(os, items[i]))
  }

  /** The constructor's `conf.menu.items = conf.menu.items.map(...)`: this
      menu is what the host writes once the helper reports ready. */
  function InitialMenu(os: string, menu: Menu): (r: Menu)
    ensures r.icon == menu.icon && r.title == menu.title && r.tooltip == menu.tooltip
    ensures |r.items| == |menu.items|
    ensures forall i :: 0 <= i < |menu.items| ==>
      r.items[i] == UpdateCheckedInLinux(os, menu.items[i]) && r.items[i].items == menu.items[i].items
  {
    menu.(items := RenderItems(os, menu.items))
  }

  /** The per-tag transform of `sendAction`: only top-level items are
      transformed; the tag, `seqId`, menu header and nested items are kept. */
  function Render(os: string, a: Action): (r: Action)
    ensures Tag(r) == Tag(a) && r.seqId == a.seqId
    ensures !a.UpdateMenu? ==> r.item == UpdateCheckedInLinux(os, a.item)
    ensures !a.UpdateItem? ==>
      r.menu.icon == a.menu.icon && r.menu.title == a.menu.title && r.menu.tooltip == a.menu.tooltip
    ensures !a.UpdateItem? ==> |r.menu.items| == |a.menu.items|
    ensures !a.UpdateItem? ==> forall i :: 0 <= i < |a.menu.items| ==>
      r.menu.items[i] == UpdateCheckedInLinux(os, a.menu.items[i]) && r.menu.items[i].items == a.menu.items[i].items
  {
    match a
    case UpdateItem(item, k) => UpdateItem(UpdateCheckedInLinux(os, item), k)
    case UpdateMenu(menu, k) => UpdateMenu(menu.(items := RenderItems(os, menu.items)), k)
    case UpdateMenuAndItem(menu, item, k) =>
      UpdateMenuAndItem(menu.(items := RenderItems(os, menu.items)), UpdateCheckedInLinux(os, item), k)
  }

  /** `sendAction` on a combined action whose `item` is the very object at
      `menu.items[j]`. The map transforms that object in place, and the item
      transform then transforms it again, so the menu entry and the item both
      show the object transformed twice. Every other entry is transformed once. */
  function RenderShared(os: string, menu: Menu, j: int, k: int): (r: Action)
    requires 0 <= j < |menu.items|
    ensures r.UpdateMenuAndItem? && r.seqId == k
    ensures r.menu.icon == menu.icon && r.menu.title == menu.title && r.menu.tooltip == menu.tooltip
    ensures |r.menu.items| == |menu.items| && r.menu.items[j] == r.item
    ensures r.item == UpdateCheckedInLinux(os, UpdateCheckedInLinux(os, menu.items[j]))
    ensures forall i :: 0 <= i < |menu.items| && i != j ==> r.menu.items[i] == UpdateCheckedInLinux(os, menu.items[i])
  {
    var mapped := RenderItems(os, menu.items);
    var twice := UpdateCheckedInLinux(os, mapped[j]);
    UpdateMenuAndItem(menu.(items := mapped[j := twice]), twice, k)
  }

  /** On Linux a checked item sent both as `item` and inside `menu.items`
      goes out with two suffixes, in both places, where `Render` of two
      distinct objects gives one. */
  lemma SharedItemGetsTwoSuffixes(menu: Menu, j: int, k: int)
    requires 0 <= j < |menu.items| && menu.items[j].checked
    ensures var r := RenderShared(Linux, menu, j, k);
            r.item.title == menu.items[j].title + CheckStr + CheckStr
            && r.menu.items[j].title == menu.items[j].title + CheckStr + CheckStr
    ensures Render(Linux, UpdateMenuAndItem(menu, menu.items[j], k)).item.title == menu.items[j].title + CheckStr
  {
  }

  /** `writeLine`: the text written to the helper's input. An empty line
      writes nothing; any other line is trimmed and terminated by one newline. */
  function WriteLine(line: string): (r: string)
    ensures line == [] <==> r == []
    ensures line != [] ==> |r| >= 1 && r[|r| - 1] == '\n' && r[..|r| - 1] == Trim(line)
  {
    if line == [] then [] else Trim(line) + "\n"
  }

  /** A line made only of whitespace still writes a bare newline. */
  lemma WhitespaceLineWritesNewline(line: string)
    requires line != [] && AllSpace(line)
    ensures WriteLine(line) == "\n"
  {
  }

  /** What one `sendAction` call produces: the transformed action and the bytes written. */
  datatype Sent = Sent(action: Action, written: string)

  /** `sendAction`: transform by tag, then write the action's JSON text
      (`stringify`, the serializer) as exactly one line. */
  function SendAction(os: string, a: Action, stringify: Action -> string): (r: Sent)
    ensures r.action == Render(os, a)
    ensures r.written == WriteLine(stringify(r.action))
    ensures stringify(r.action) != [] && '\n' !in stringify(r.action) ==>
      '\n' in r.written && '\n' !in r.written[..|r.written| - 1]
  {
    var action := Render(os, a);
    Sent(action, WriteLine(stringify(action)))
  }
}
