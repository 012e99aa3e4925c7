# deno-systray: the render transform, line framing, helper state machine and debug formatting

deno-systray lets a Deno program drive a native tray icon and menu. The host
library (`mod.ts`) spawns a Go helper (`tray.go`) and writes JSON actions to
its standard input, one per line. The helper keeps the menu it was given,
shows it through a native tray library, applies the actions it reads, and
writes a `clicked` event for every click.

This project models the deterministic parts of that exchange in Dafny:

- `text.dfy` (`Text`): the JavaScript string operations the code relies on:
  `indexOf`, `substring` with its clamping, `trim` with ECMAScript's
  whitespace set, and `join`.
- `host.dfy` (`Host`): `CHECK_STR` and `updateCheckedInLinux`. The regular
  expression `RegExp(" (√)$")` is modelled as the text it actually matches,
  which is the two characters space and √.
  This module also covers the constructor's transform of the initial menu,
  the per-tag transform of `sendAction`, and the framing done by `writeLine`.
  The platform is a parameter `os`. Each transform returns a new value where
  the source mutates the item in place.
- `helper.dfy` (`Helper`): the Go helper as a pure state machine. Its parts
  are `ReadString` and `readLine`, `readAction` on empty input, the startup
  loop that adds native entries, `updateItem`, `updateMenu`, the `update`
  dispatch and the construction of the click event. What the native tray
  shows is a `Tray` record beside the stored `Menu`. The predicate `Synced`
  says the two agree, and every update preserves it.
- `debuglog.dfy` (`DebugLog`): `_debug` in `utils.ts`. It covers
  stringification (a function parameter), redaction of the first `"icon":`
  value, truncation to 250 + `...` + 250 characters, and the joined line.
- `protocol.dfy` (`Protocol`): host and helper together. It covers the
  decoded form of a host action, the round trip from `writeLine` to
  `readLine`, and what each host action does to the helper's state.

A `char` is a Unicode scalar value. Inside the Basic Multilingual Plane that is one UTF-16 code unit of a JavaScript string. Text outside it (a surrogate pair, such as an emoji) has no representation here; see "## Left out".

## Model

| member | source | states |
|---|---|---|
| `Text.IndexOf` | utils.ts:22-24 | Returns -1 exactly when the pattern occurs nowhere at or after the start index; otherwise returns the first such occurrence. A negative start searches from 0. |
| `Text.Substring` | utils.ts:25 | Both bounds are clamped to the string and swapped when reversed. In-range bounds give the slice between them in either order. A bound past the end reads to the end, and a bound below 0 reads from the start. Two bounds on the same side of the string give the empty string. |
| `Text.SubstringFrom` | utils.ts:25-29 | One-argument `substring`: a start inside the string gives the rest from there, a negative start the whole string, and a start at or past the end the empty string. |
| `Text.Trim` | mod.ts:143 | The result is a contiguous piece of the input with only whitespace before it and only whitespace after it. It is empty iff the input is all ECMAScript whitespace. A non-empty result neither starts nor ends with whitespace. |
| `Text.Join` | utils.ts:32 | No parts join to the empty string, and one part joins to itself. `Text.JoinConcat` states how longer runs join. |
| `Text.JoinConcat` | utils.ts:32 | Joining two non-empty runs of parts gives the two joins with exactly one separator between them. The parts stay in order. |
| `Host.Tag` | mod.ts:34-51 | Each action kind has its own `type` string: `update-item`, `update-menu` or `update-menu-and-item`, and each string names exactly one kind. |
| `Host.GroupedLiteral` | mod.ts:85 | The text a pattern made of literal characters and group parentheses matches: every character except the parentheses is kept, and a source without parentheses is its own literal. |
| `Host.GroupedLiteralConcat` | mod.ts:85 | The literal of a concatenation is the concatenation of the literals, so the kept characters stay in their original order. |
| `Host.CheckPatternMatchesBareMark` | mod.ts:85 | The pattern built from `" (√)" + "$"` matches the text `" √"`, not `" (√)"`, because the parentheses form a group. |
| `Host.StripCheckPattern` | mod.ts:85 | A title ending in space and √ loses those two characters. Any other title is unchanged, including one ending in `" (√)"`. |
| `Host.UpdateCheckedInLinux` | mod.ts:77-88 | Off Linux the item is returned unchanged. On Linux a checked item gets `" (√)"` appended, and an unchecked item has a trailing `" √"` removed. Tooltip, checked, enabled and nested items are always kept. |
| `Host.CheckedTwiceStacksSuffix` | mod.ts:82-83 | Rendering a checked item twice gives two suffixes, so the transform is not idempotent. |
| `Host.UncheckKeepsCheckSuffix` | mod.ts:84-85 | An unchecked item whose title ends in `" (√)"` comes back unchanged. |
| `Host.CheckThenUncheckKeepsSuffix` | mod.ts:82-86 | Checking and then unchecking leaves the title with `" (√)"` appended, which differs from the original. |
| `Host.ToggleAccumulatesSuffix` | mod.ts:82-86 | The host keeps the transformed object and toggles `checked` on it. Check, uncheck, check gives the title followed by two suffixes. |
| `Host.UpdateCheckedEscaped` | mod.ts:85 | Corrected transform with the pattern escaped. Unchecking removes one trailing `" (√)"` exactly when the title has one, and leaves any other title unchanged. All other fields are kept. |
| `Host.EscapedCheckThenUncheckRestores` | mod.ts:82-86 | With the escaped pattern, checking then unchecking restores every title. |
| `Host.EscapedToggleAlternates` | mod.ts:82-86 | With the escaped pattern, the check, uncheck, check sequence alternates between the marked title and the original. |
| `Host.RenderItems` | mod.ts:156 | Mapping the transform over a list keeps its length and order. Element `i` of the result is item `i` transformed. |
| `Host.InitialMenu` | mod.ts:105 | The constructor transforms each top-level item once, in order. The menu's icon, title and tooltip are kept, and so is every item's nested `items`. |
| `Host.Render` | mod.ts:150-162 | The tag and `seq_id` are kept. `update-item` transforms only the item. `update-menu` transforms only the menu's top-level items. The combined action does both. The menu header and nested items are never changed. The item and the menu's items are taken to be distinct objects. |
| `Host.RenderShared` | mod.ts:158-160 | The combined action's `item` is the object at `menu.items[j]`. That object is transformed twice, and both the item and menu entry `j` show the result. Every other entry is transformed once and the header is kept. |
| `Host.SharedItemGetsTwoSuffixes` | mod.ts:158-160 | On Linux a checked item sent as both `item` and `menu.items[j]` goes out with two suffixes in both places. `Render` of two distinct objects gives one. |
| `Host.WriteLine` | mod.ts:140-148 | An empty line writes nothing. Any other line writes its trimmed text followed by exactly one newline. |
| `Host.WhitespaceLineWritesNewline` | mod.ts:141-143 | A non-empty line made only of whitespace writes a bare newline. |
| `Host.SendAction` | mod.ts:150-166 | The written bytes are the framing of the transformed action's JSON text. When that text has no newline, the written bytes hold exactly one newline, at the end. |
| `Helper.EntryOf` | tray.go:167-177 | A native entry shows the item's title and tooltip. It is checked iff the item is, and enabled iff the item is. |
| `Helper.ReadString` | tray.go:52 | Read data plus the remaining input is the input. Without an error, the data ends with its only delimiter. With the error (no delimiter), the data is everything left. |
| `Helper.ReadStringStopsAtFirst` | tray.go:52 | Reading `a + delim + rest` with no delimiter in `a` returns `a + delim` and leaves `rest`. |
| `Helper.ReadLine` | tray.go:51-60 | With a newline in the input, the text is everything before the first newline. At end of input without one, the last real character is dropped. Empty input gives an empty text. |
| `Helper.ReadAction` | tray.go:62-68 | An empty line gives the zero action, whose `Type` is `""`, whatever the decoder would do. |
| `Helper.ReadMenu` | tray.go:93-97 | An empty first line leaves the zero menu, which has no items. |
| `Helper.Start` | tray.go:165-179 | Startup keeps the decoded menu and adds one native entry per item, in order. Entry `i` is checked iff item `i` is checked and enabled iff it is enabled. The tray is `Synced`. |
| `Helper.UpdateItem` | tray.go:107-125 | The item at `SeqID` and its native entry are replaced by the action's item. Every other index, both lengths and the header are unchanged. |
| `Helper.UpdateMenu` | tray.go:126-144 | Title, icon and tooltip become the action menu's. The stored items and the native entries are unchanged. A synced tray stays synced. |
| `Helper.UpdateMenuIdempotent` | tray.go:126-144 | Applying the same menu update twice equals applying it once. |
| `Helper.Update` | tray.go:146-156 | `update-item` runs the item update only and `update-menu` the menu update only. `update-item-and-menu` runs both. Any other `Type` leaves the state unchanged. |
| `Helper.UpdatePreservesSynced` | tray.go:107-156 | After any dispatched action, the tray still shows exactly the stored menu. |
| `Helper.EmptyLineChangesNothing` | tray.go:56-68 | Once input is exhausted, reading yields the zero action, which indexes nothing and leaves the state unchanged. |
| `Helper.UpdateAgreed` | tray.go:146-156 | Corrected dispatch. `update-item` and `update-menu` run as in `update`. Both `update-menu-and-item`, the host's spelling, and `update-item-and-menu` run the item update and then the menu update. Any other `Type` leaves the state unchanged. |
| `Helper.UpdateAgreedExtendsUpdate` | tray.go:146-156 | The corrected dispatch equals `update` on every tag except `update-menu-and-item`. On that tag `update` changes nothing, while the corrected dispatch updates the item and the menu. |
| `Helper.Click` | tray.go:198-202 | The click event for entry `k` has type `clicked` and `SeqID = k`. It carries the stored item at `k` and the zero menu. On a synced tray that is the item whose entry the user saw at `k`. |
| `Helper.ClickAfterUpdateItem` | tray.go:110 | After an item update at `k`, a click on `k` reports the new item. A click elsewhere reports what it did before. |
| `DebugLog.Redact` | utils.ts:22-26 | Text without `"icon":` is unchanged. Text with the key comes out at least 13 characters long: the key and the marker. The exact result is stated by `RedactValue` and `RedactNoClosingQuote`. |
| `DebugLog.RedactValue` | utils.ts:22-26 | Let the first key be at `p` and the next quote at or after `p+8` be at `e`. The result is `t[..p+8] + "<ICON>" + t[e..]`, so only the first key's value is hidden. |
| `DebugLog.RedactNoClosingQuote` | utils.ts:24-25 | When no quote follows the key, `"<ICON>"` is followed by a second copy of the whole text. |
| `DebugLog.RedactHidesIconValue` | utils.ts:22-26 | Take a JSON text whose first `icon` key has a string value. The value is replaced by `<ICON>` and every other character is kept. |
| `DebugLog.Truncate` | utils.ts:27-30 | Text of at most 500 characters is unchanged. Longer text becomes exactly 503 characters: its first 250, then `...`, then its last 250. |
| `DebugLog.TruncateIdempotent` | utils.ts:27-30 | Truncating a truncated text changes nothing. |
| `DebugLog.MessageText` | utils.ts:21 | A string message is used as it is. Any other message becomes `stringify` of its value, its JSON text. |
| `DebugLog.Format` | utils.ts:21-31 | A message's text is redacted and then truncated: a string message's own text, any other message's JSON text. The result is at most 503 characters. A short string without the icon key is printed verbatim. |
| `DebugLog.FormatHidesIconValue` | utils.ts:21-31 | A message whose text has a string value under its first `icon` key is printed with that value replaced by `<ICON>`, then cut to length. |
| `DebugLog.FormatAll` | utils.ts:20-31 | Every message is formatted, one result per message, in order. |
| `DebugLog.DebugLine` | utils.ts:19-32 | The line starts with the message type and `:`. With no messages it is only that prefix. With one message it is the prefix followed by that message's formatted text. |
| `DebugLog.DebugLineAppend` | utils.ts:32 | One more message appends a single space and its formatted text, so messages appear in argument order. |
| `Protocol.WireAction` | tray.go:43-49 | The decoded action carries the host's tag and `seq_id`. It carries the item and the menu when the host action has them, and zero values otherwise. |
| `Protocol.WireItem` | tray.go:28-33 | The helper's item has the host item's title, tooltip, checked and enabled. The host's submenu is dropped, because the Go struct has no field for it. |
| `Protocol.WireMenu` | tray.go:35-41 | The helper's menu has the host menu's icon, title and tooltip, and item `i` is host item `i` decoded. |
| `Protocol.WrittenLineReadBack` | mod.ts:140-145 | Take a non-empty line without newlines. What the host writes, followed by any further input, is read back by the helper as the trimmed line, and the further input is left unread. |
| `Protocol.CombinedActionIgnored` | mod.ts:158-160 | The host's `update-menu-and-item` is not a tag the helper dispatches on. It changes nothing, for every item, menu and index. |
| `Protocol.ItemUpdateDelivered` | tray.go:107-110 | A host `update-item` stores the rendered item at its index, and a click there reports it. |
| `Protocol.MenuUpdateKeepsItems` | tray.go:126-144 | A host `update-menu` changes the header only. The rendered items it carries never reach the helper's items or entries. |
| `Protocol.CombinedActionAgreed` | tray.go:152-154 | With the tags spelled alike, the combined action stores the rendered item and updates the header. |
| `Protocol.StartupShowsHostItems` | tray.go:165-179 | After startup from the host's initial menu, entry `i` is checked and enabled as host item `i` is, and carries its rendered title. On Linux a checked item's entry ends in `" (√)"`. |

## Findings

| source | as written | input that shows it | evidently intended | confidence | as-written member | corrected member |
|---|---|---|---|---|---|---|
| mod.ts:85 | `replace(RegExp(CHECK_STR + "$"), "")` with `CHECK_STR = " (√)"`. The parentheses form a group, so the pattern removes `" √"` and never the appended `" (√)"`. | On Linux, item `{title: "Item 1", checked: true}` is rendered. The click handler of test.ts:9-18 toggles `checked` on the item the helper reports, whose title is already rendered, and sends it again. The titles go `"Item 1 (√)"`, `"Item 1 (√)"`, `"Item 1 (√) (√)"`. | Unchecking removes the literal suffix, e.g. `RegExp(" \\(√\\)$")`. | high, not executed | `Host.ToggleAccumulatesSuffix` | `Host.EscapedToggleAlternates` |
| mod.ts:158, tray.go:152 | The host tags the combined action `"update-menu-and-item"`. The helper only dispatches on `"update-item-and-menu"`. | `UpdateMenuAndItem(menu, item, 0)` sent to any helper state leaves it unchanged. | The helper applies both the item update and the menu update. | high, not executed | `Protocol.CombinedActionIgnored` | `Protocol.CombinedActionAgreed` |

Both corrected members use corrected definitions beside the faithful ones: `Host.UpdateCheckedEscaped` and `Helper.UpdateAgreed`. `Host.Render`, `Host.SendAction` and `Helper.Update` keep the code as written, because the rest of the model describes what the shipped program does.

## Left out

- Process I/O is not modelled: `Deno.run`, the stdin/stdout/stderr pipes, `readLines`, `stderrOutput`, `kill`, `close` and `Deno.exit`. `writeLine`'s result is the text that would be written.
- `onReady`, `onClick`, `onExit` and `onError` are not modelled. They are concurrent loops that compete for one stdout reader, and the `EventEmitter` base class and the `debug` logging library come from outside the repository.
- The helper's goroutines, signal handling, the `reflect.Select` over click channels and the native tray calls are not modelled. The calls' visible effect is recorded in `Tray`, and the icon is kept as its base64 text.
- Helper.Update assumes the startup loop has finished. The reading goroutine starts (tray.go:158) before the loop adds entries (tray.go:165), so an early `update-item` can index a shorter slice. That race is concurrency and is not modelled.
- Helper.UpdateItem requires `SeqID` in range. Out of range, the Go slice index panics and the helper crashes, and a crash is not modelled.
- Helper.ReadAction leaves a non-empty line's result to the decoder parameter. The partly filled struct Go leaves after a type error is not modelled.
- Protocol.WireAction assumes that `JSON.stringify` on the host and `encoding/json` in the helper agree field by field. The JSON text itself is opaque: it is `stringify` in `Host.SendAction` and `DebugLog.DebugLine`.
- Host.UpdateCheckedInLinux does not model a missing (`undefined`) title. The declared `MenuItem` type requires a string, and an empty title maps to `""` as modelled.
- `getTrayBinPath` and `getTrayPath` are not modelled, because they deal with filesystem paths, environment variables and downloads. `build.ts`, `deps.ts`, the example and playground programs and the tests are not modelled either.
- mod.ts has no identifier registry, `__id` correlation, icon loading, item trimming, separator handling, `exit` action or submenu recursion, so none is modelled. The programs under example/ and playground/ use `SysTray.separator`, `ready()` and `on(...)`, which mod.ts lacks. The transform is not idempotent and touches top-level items only.
- Host.Render and Host.SendAction treat `item` and the objects in `menu.items` as distinct. When one object is reached twice by a single call, mod.ts:159-160 transforms it twice; that case is the separate member `Host.RenderShared`, and the text then written is `stringify` of its result. An object listed twice in `menu.items` is not modelled; it too would be transformed twice.
- DebugLog.Truncate covers text inside the Basic Multilingual Plane only. A Dafny `char` cannot be a lone surrogate, so the 250-code-unit cuts of utils.ts:28-29, which can split a surrogate pair, are not modelled for text outside it.
- Helper.ReadLine drops the last character of a final line that has no newline, while tray.go:59 slices bytes and drops the last byte. The two agree for ASCII; a multi-byte UTF-8 character at the end leaves broken bytes in Go. The host always ends lines with a newline, so this only arises when input ends mid-line.
- DebugLog.Format takes `stringify` as a total function. `JSON.stringify` returns `undefined` for `undefined`, functions and symbols, and throws on cycles and BigInt; then `t.indexOf` at utils.ts:22 throws a TypeError, or the call throws first. That error path is not modelled.
