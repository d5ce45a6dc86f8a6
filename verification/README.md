# droidnet LuCI views — a Dafny model

droidnet is a set of LuCI pages for an OpenWrt router that uses an Android
phone as its modem over ADB. This project models the logic of its four views:

- **network** (`network.js`): parses `getprop`, `settings list global`,
  the IMEI service call and `ip route`. It merges them into one snapshot
  and decides what each row and button shows. It runs the mobile-data and
  airplane-mode toggles.
- **service** (`service.js`): parses `df` and `pm list packages` and detects
  a missing device. It runs the power actions, package removal, the list
  refresh and APK installation, and appends to the log file. It drives the
  filtered, paged package table and its caption.
- **setting** (`setting.js`): parses `adb devices -l` into serial/model
  choices. It declares the option domains of the droidnet UCI section.
- **log** (`log.js`): loads the log file and reorders its lines on each poll
  tick.

Modules:

- `Js`: JavaScript values, records and `Object.assign`.
- `Text`: `trim`, `split`, `join`, `indexOf`, `includes`, `replace` and
  lower-casing.
- `Network`, `Service`, `Paginator`, `Logbook`, `Actions`, `Devices` and
  `LogView`: one per part of the views.

Every `fs.exec`, `fs.read` and `fs.write` result is an input:

- An `Exec` value is either a resolved `{stdout, stderr}` or a rejection.
- A read is `Option<string>`.
- Replies to commands and uploads are the `Reply` and `Upload` inputs.

In the network and service views each `.catch` turns a failure into the
record `{error: …}`, and that record is what the model's parsers return. The
setting view's `.catch` returns `null`, which `Devices.ParseDevices` models as
`None`. The log view's `.catch` also returns `null`, which `LogView.LoadLog`
models as `None`.

Behaviour of the code worth noting:

- A getprop line naming a known key without `]: [` throws inside the loop. The
  whole getprop record becomes `{error}`, not just that line.
- An IMEI reply with no quoted token makes `match` return `null`, and
  `matches.map` then throws. The result is `{error}`.
- A `df` data row shorter than the header leaves the missing fields
  `undefined`. It is not an error.
- The merges are not disjoint: a later record's key, `error` included,
  overwrites an earlier one.
- Empty `pm list packages` output gives the one-entry list `[""]`.
- The `if (deviceInfo && settingInfo && imeiInfo && ipInfo)` test before the
  network merge always holds, because every parser returns an object, so the
  model has no branch for it.
- An upload failure is logged as `Error: <message>`, on the assumption that
  `ui.uploadFile` rejects with an `Error` object.

## Model

| member | source | states |
|---|---|---|
| Js.ErrorRecord | htdocs/luci-static/resources/view/droidnet/network.js:54-56 | a parser whose promise is rejected or throws yields a record whose only key is `error` |
| Js.Assign | htdocs/luci-static/resources/view/droidnet/network.js:146 | the merged record holds exactly the keys present in some merged record |
| Js.AssignLastWins | htdocs/luci-static/resources/view/droidnet/network.js:146 | a merged key takes its value from the last record that holds it |
| Js.AssignThree | htdocs/luci-static/resources/view/droidnet/service.js:71 | the three-record merge is the left-to-right union in which later records win |
| Js.AssignFour | htdocs/luci-static/resources/view/droidnet/network.js:146 | the four-record merge is the left-to-right union in which later records win |
| Text.Trim | htdocs/luci-static/resources/view/droidnet/network.js:44 | `trim` removes exactly a white-space run at each end: the result is a slice of the input, has no blank at either end, and only blanks were dropped |
| Text.TrimAround | htdocs/luci-static/resources/view/droidnet/network.js:44 | trimming a blank-free text surrounded by blanks gives that text back |
| Text.IndexOf | htdocs/luci-static/resources/view/droidnet/network.js:39 | `indexOf` is the first occurrence; no occurrence gives none |
| Text.Split | htdocs/luci-static/resources/view/droidnet/network.js:36 | `split` yields at least one piece, and exactly one iff the separator does not occur |
| Text.JoinSplit | htdocs/luci-static/resources/view/droidnet/network.js:36 | joining the pieces of a split with the separator restores the text |
| Text.SplitHead | htdocs/luci-static/resources/view/droidnet/network.js:36 | a head without the separator is the first piece of the split |
| Text.SplitJoin | htdocs/luci-static/resources/view/droidnet/service.js:60 | splitting a join on a character absent from every part gives the parts back |
| Text.SplitPiecesLackSep | htdocs/luci-static/resources/view/droidnet/network.js:36 | no piece of a split contains the separator character |
| Text.SplitWs | htdocs/luci-static/resources/view/droidnet/network.js:121 | the pieces of `split(/\s+/)` contain no white space |
| Text.SplitWsJoin | htdocs/luci-static/resources/view/droidnet/network.js:121 | non-empty blank-free words joined by single spaces split back into the words |
| Text.ReplaceFirst | htdocs/luci-static/resources/view/droidnet/service.js:61 | `replace` with a string pattern replaces only the first occurrence, and leaves a text without the pattern alone |
| Text.Without | htdocs/luci-static/resources/view/droidnet/network.js:109 | `replace(/[.\s]/g, '')` leaves no deleted character, keeps a text without one unchanged and empties a text made only of them |
| Text.WithoutAppend | htdocs/luci-static/resources/view/droidnet/network.js:109 | deleting characters distributes over concatenation, so each kept character stays in place and order |
| Text.WithoutJoin | htdocs/luci-static/resources/view/droidnet/network.js:108-109 | deleting characters from the joined tokens is joining the cleaned tokens |
| Text.Find | htdocs/luci-static/resources/view/droidnet/network.js:122 | array `indexOf`: the first index holding the element, none iff the element is absent |
| Text.ToLower | htdocs/luci-static/resources/view/droidnet/service.js:297 | lower-casing maps each ASCII capital to its small letter and keeps every other character |
| Text.NatToString | htdocs/luci-static/resources/view/droidnet/service.js:391 | a number prints as decimal digits, a single one exactly below ten, and the digits read back as the number |
| Text.NatToStringInjective | htdocs/luci-static/resources/view/droidnet/service.js:391 | distinct numbers print differently |
| Text.DigitsBeforeMark | htdocs/luci-static/resources/view/droidnet/service.js:391 | digits followed by a non-digit mark are recovered from the text |
| Text.Reverse | htdocs/luci-static/resources/view/droidnet/log.js:71 | `reverse` puts element i at position n-1-i |
| Text.ReverseReverse | htdocs/luci-static/resources/view/droidnet/log.js:71 | reversing twice restores the list |
| Text.ReverseMultiset | htdocs/luci-static/resources/view/droidnet/log.js:71 | reversing keeps every element with its multiplicity |
| Network.FirstKey | htdocs/luci-static/resources/view/droidnet/network.js:38-50 | a line is assigned to the first table key whose marker it contains; no earlier key matches |
| Network.ScanLines | htdocs/luci-static/resources/view/droidnet/network.js:36-52 | the line loop fails as a whole iff some line throws; otherwise the record keys are exactly the fields some line hit |
| Network.ScanLastHit | htdocs/luci-static/resources/view/droidnet/network.js:37-48 | a field holds the value of the last line that hit it |
| Network.ScanKeysExact | htdocs/luci-static/resources/view/droidnet/network.js:36-52 | a completed scan fills exactly the fields some line hits |
| Network.ScanKeysWithin | htdocs/luci-static/resources/view/droidnet/network.js:47 | the loop can only fill the fields its table names |
| Network.CommaValue | htdocs/luci-static/resources/view/droidnet/network.js:42-46 | a value without a comma is kept as text; with a comma it becomes two or more trimmed, comma-free items |
| Network.CommaValueJoin | htdocs/luci-static/resources/view/droidnet/network.js:42-46 | comma-joined trimmed parts (a dual-SIM value) come back as exactly those parts |
| Network.DropLast | htdocs/luci-static/resources/view/droidnet/network.js:41 | `substring(0, length - 1)` drops the last character, and keeps the empty text empty |
| Network.PropertyHit | htdocs/luci-static/resources/view/droidnet/network.js:39-48 | a getprop line can only fill a getprop field, and throws only when it lacks the `]: [` separator |
| Network.PropertyLine | htdocs/luci-static/resources/view/droidnet/network.js:39-47 | the line `[key]: [value]` stores `value` (comma-split) under the key's field |
| Network.ParseProperties | htdocs/luci-static/resources/view/droidnet/network.js:20-56 | failure gives `{error}`; a diagnostic gives only `device-section`; otherwise, unless a line threw, the keys are exactly the getprop fields some line hits: a field no line names stays absent |
| Network.PropertiesError | htdocs/luci-static/resources/view/droidnet/network.js:36-56 | the getprop record is `{error}` exactly when some line names a known key without the `]: [` separator |
| Network.FlagText | htdocs/luci-static/resources/view/droidnet/network.js:76-80 | exactly `0` reads `false`, exactly `1` reads `true`, anything else is kept |
| Network.SettingHit | htdocs/luci-static/resources/view/droidnet/network.js:73-87 | a settings line never throws and can only fill a settings field |
| Network.SettingLine | htdocs/luci-static/resources/view/droidnet/network.js:73-86 | the line `key=value` stores the flag-normalised, comma-split value under the key's field |
| Network.ParseSettings | htdocs/luci-static/resources/view/droidnet/network.js:57-95 | failure gives `{error}`; a diagnostic gives only `setting-section`; otherwise the keys are exactly the settings fields some line hits: a field no line names stays absent |
| Network.QuotedTokens | htdocs/luci-static/resources/view/droidnet/network.js:104-107 | the regex scan yields non-empty, quote-free tokens, and none when the text has no quote |
| Network.QuotedTokensStep | htdocs/luci-static/resources/view/droidnet/network.js:104-107 | a quoted token is scanned, then the scan continues after its closing quote |
| Network.SkipPlain | htdocs/luci-static/resources/view/droidnet/network.js:104 | the regex scan skips text without a quote |
| Network.QuotedTokensAmid | htdocs/luci-static/resources/view/droidnet/network.js:104-107 | the scan finds exactly the quoted groups amid quote-free filler |
| Network.QuotedTokensQuote | htdocs/luci-static/resources/view/droidnet/network.js:104-107 | the scan recovers every token of a reply that quotes them |
| Network.ParseImei | htdocs/luci-static/resources/view/droidnet/network.js:96-115 | a diagnostic gives `imei01-section`; no quoted token gives `{error}`; otherwise `imei01` is the quoted tokens, each with its periods and white space deleted, glued in order |
| Network.ImeiOfQuotedGroups | htdocs/luci-static/resources/view/droidnet/network.js:104-110 | a reply of quoted groups separated by spaces, the groups dotted and spaced in any way, yields the groups' remaining characters glued in order |
| Network.ImeiOfReply | htdocs/luci-static/resources/view/droidnet/network.js:96-111 | a service-call reply with the IMEI's quoted groups amid quote-free text (offsets, hex words, the `Result: Parcel(` frame) yields the groups with periods and white space deleted, glued in order |
| Network.ImeiOfPlainGroups | htdocs/luci-static/resources/view/droidnet/network.js:104-110 | groups without periods or white space come back glued verbatim |
| Network.ParseRoute | htdocs/luci-static/resources/view/droidnet/network.js:116-139 | stdout wins over stderr; `src` gives `data` true and `ip` the next token; no `src` gives an empty record; stderr alone gives `data` null; silence gives `data` false |
| Network.RouteDataOutcomes | htdocs/luci-static/resources/view/droidnet/network.js:120-136 | `data` is `false` iff both streams are empty, null iff only stderr is non-empty, and `true` iff stdout mentions `src` |
| Network.RouteLine | htdocs/luci-static/resources/view/droidnet/network.js:121-127 | a route line yields the word after the first `src` as `ip` |
| Network.LoadNetwork | htdocs/luci-static/resources/view/droidnet/network.js:140-148 | `device` is the configured id; every other key comes from route, else IMEI, else settings, else getprop |
| Network.ToggleOf | htdocs/luci-static/resources/view/droidnet/network.js:187-188 | a row reads On exactly for `true`, Off exactly for `false` |
| Network.SimCell | htdocs/luci-static/resources/view/droidnet/network.js:396 | a SIM cell shows the SIM's element of a list, the text of a non-empty plain value, and `-` for a missing one |
| Network.RoamingAsWritten | htdocs/luci-static/resources/view/droidnet/network.js:405-406 | as written, the roaming row only ever reads element 0 of a list, for either SIM |
| Network.Roaming | htdocs/luci-static/resources/view/droidnet/network.js:430-431 | corrected: the roaming row reads the SIM's own cell, On iff it is `true`, Off iff it is `false` |
| Network.RoamingScalarMisread | htdocs/luci-static/resources/view/droidnet/network.js:405-406 | a plain `true` reads `-` as written and On when corrected |
| Network.RoamingSecondSimMisread | htdocs/luci-static/resources/view/droidnet/network.js:430-431 | SIM 2 shows SIM 1's roaming flag as written |
| Network.RoamingAgreesOnFirstSim | htdocs/luci-static/resources/view/droidnet/network.js:405-406 | the correction changes nothing for SIM 1 of a list |
| Service.ColumnField | htdocs/luci-static/resources/view/droidnet/service.js:24-30 | `Use%` and only `Use%` names `percentage`; `Size` and only `Size` names `size` |
| Service.Columns | htdocs/luci-static/resources/view/droidnet/service.js:40-45 | the df table has exactly the fields some header cell names |
| Service.ColumnsAligned | htdocs/luci-static/resources/view/droidnet/service.js:40-45 | a field holds the data cell under its last labelled header cell, undefined past the row's end |
| Service.ParseDf | htdocs/luci-static/resources/view/droidnet/service.js:21-50 | failure gives `{error}`; a diagnostic gives the trimmed text; no second line gives `{error}`; otherwise a table of known fields |
| Service.DfColumn | htdocs/luci-static/resources/view/droidnet/service.js:36-45 | for any header and data line, however padded, and whether the output ends after the data line, with a line break or with more lines, a labelled column's field holds the data word at the same index verbatim, or `undefined` past the row's end |
| Service.FirstTwoLines | htdocs/luci-static/resources/view/droidnet/service.js:37 | the first two lines of such output are the header and the data line |
| Service.DfOfLines | htdocs/luci-static/resources/view/droidnet/service.js:37-45 | output with a second line becomes the table of its first two lines |
| Service.DfColumnOfWords | htdocs/luci-static/resources/view/droidnet/service.js:36-45 | the same for a header and row written with single spaces |
| Service.StripPrefixes | htdocs/luci-static/resources/view/droidnet/service.js:60-62 | one entry per line, each with its first `package:` removed |
| Service.ParsePackages | htdocs/luci-static/resources/view/droidnet/service.js:52-66 | a diagnostic gives the trimmed text; otherwise a list with one entry per line of the trimmed output, each the line with its first `package:` removed |
| Service.PackagesOfListing | htdocs/luci-static/resources/view/droidnet/service.js:60-62 | a `pm list packages` listing parses back to the package names, in order |
| Service.StripListing | htdocs/luci-static/resources/view/droidnet/service.js:61 | removing the prefix from prefixed names gives the names back |
| Service.PackagesOfEmptyOutput | htdocs/luci-static/resources/view/droidnet/service.js:60 | empty output gives the one-entry list `[""]` |
| Service.LoadService | htdocs/luci-static/resources/view/droidnet/service.js:67-74 | the snapshot has `device`, the storage field of the df record and the package field of the package record |
| Service.PackagesView | htdocs/luci-static/resources/view/droidnet/service.js:289-296 | the package table needs a list |
| Service.Classify | htdocs/luci-static/resources/view/droidnet/service.js:86 | the conflict branch is taken iff `sdcard` is text containing, or a list holding, `error: device not found` |
| Service.ConflictIff | htdocs/luci-static/resources/view/droidnet/service.js:86 | on a loaded snapshot, the conflict branch is taken iff df's trimmed diagnostic mentions the missing device |
| Service.ControlsShowPackages | htdocs/luci-static/resources/view/droidnet/service.js:289 | a usable snapshot renders exactly the parsed package list |
| Paginator.Filter | htdocs/luci-static/resources/view/droidnet/service.js:296-298 | the filtered list holds only matching packages, each from the list, and every matching package |
| Paginator.FilterAppend | htdocs/luci-static/resources/view/droidnet/service.js:296-298 | filtering distributes over concatenation, so order is kept |
| Paginator.FilterIdempotent | htdocs/luci-static/resources/view/droidnet/service.js:296-298 | filtering the filtered list again changes nothing |
| Paginator.FilterEmpty | htdocs/luci-static/resources/view/droidnet/service.js:292 | the empty filter keeps every package |
| Paginator.PageCount | htdocs/luci-static/resources/view/droidnet/service.js:560 | `ceil(n/10)`: zero iff no rows, and the last page is partly or fully filled |
| Paginator.Rows | htdocs/luci-static/resources/view/droidnet/service.js:294-300 | page p shows the rows from `(p-1)*10`, at most ten, in order, and none past the end |
| Paginator.PageHasRows | htdocs/luci-static/resources/view/droidnet/service.js:295-300 | a page has rows iff its number is at most the page count |
| Paginator.RowPosition | htdocs/luci-static/resources/view/droidnet/service.js:295-300 | row i appears on page `i/10+1` at position `i%10` |
| Paginator.PagesFromSuffix | htdocs/luci-static/resources/view/droidnet/service.js:294-300 | the pages from p on show the list from p's first row |
| Paginator.PagesCoverList | htdocs/luci-static/resources/view/droidnet/service.js:294-300 | the pages one after another reproduce the filtered list |
| Paginator.Numbers | htdocs/luci-static/resources/view/droidnet/service.js:388-390 | the caption's first row is `(page-1)*10+1` and its total the filtered count |
| Paginator.NumbersDescribeRows | htdocs/luci-static/resources/view/droidnet/service.js:384-391 | on a page with rows the caption names exactly the first and the last row shown |
| Paginator.Caption | htdocs/luci-static/resources/view/droidnet/service.js:391 | the caption text starts with `Displaying ` |
| Paginator.CaptionInjective | htdocs/luci-static/resources/view/droidnet/service.js:391 | the caption determines its three numbers: equal captions have equal first row, last row and total |
| Paginator.CaptionParts | htdocs/luci-static/resources/view/droidnet/service.js:391 | the digits before `-`, before ` of ` and after it are recovered from the caption text |
| Paginator.PageInfo | htdocs/luci-static/resources/view/droidnet/service.js:384-394 | on a page with rows the caption names the first and last row shown and the number of matching packages; past the end it names the page's first row and the total twice |
| Paginator.NumbersOfRows | htdocs/luci-static/resources/view/droidnet/service.js:388-390 | the last number is the last row shown, or the total on an empty page |
| Paginator.InitialInfoAsWritten | htdocs/luci-static/resources/view/droidnet/service.js:552 | as written, the first caption always claims rows 1 to 10 of all packages |
| Paginator.Prev | htdocs/luci-static/resources/view/droidnet/service.js:545-549 | « steps back one page only from a page after the first |
| Paginator.Next | htdocs/luci-static/resources/view/droidnet/service.js:556-563 | » steps forward one page iff a later page of the filtered list exists |
| Paginator.Type | htdocs/luci-static/resources/view/droidnet/service.js:420-424 | a new filter text goes back to page 1 |
| Paginator.Clear | htdocs/luci-static/resources/view/droidnet/service.js:428-434 | Clear returns to the initial state: no filter, page 1 |
| Paginator.PagerStaysValid | htdocs/luci-static/resources/view/droidnet/service.js:545-564 | every handler keeps `1 <= page <= max(1, page count)` |
| Paginator.ValidPageHasRows | htdocs/luci-static/resources/view/droidnet/service.js:294-300 | on a reachable page the table shows rows whenever a package matches |
| Paginator.InitialInfo | htdocs/luci-static/resources/view/droidnet/service.js:384-391 | corrected first caption: it names exactly the rows of the first page |
| Paginator.InitialInfoAgreesFromTen | htdocs/luci-static/resources/view/droidnet/service.js:552 | with ten packages or more the written first caption is the right one |
| Paginator.InitialInfoWrongForThree | htdocs/luci-static/resources/view/droidnet/service.js:552 | with three packages the written first caption claims rows 1-10 |
| Logbook.Entry | htdocs/luci-static/resources/view/droidnet/service.js:120 | an entry is the date, `, `, the time, ` - ` and the message, each at its position |
| Logbook.Append | htdocs/luci-static/resources/view/droidnet/service.js:118-122 | a write happens iff the read succeeded |
| Logbook.AppendPrefix | htdocs/luci-static/resources/view/droidnet/service.js:121 | the written text starts with the trimmed old text and a line break, and ends with the entry |
| Logbook.TrimAfterAppend | htdocs/luci-static/resources/view/droidnet/service.js:121 | the trimmed file is the old entries, a line break and the new entry |
| Logbook.AppendKeepsHistory | htdocs/luci-static/resources/view/droidnet/service.js:121 | after an append the log's lines are the old lines followed by the new entry |
| Logbook.SplitAfterLine | htdocs/luci-static/resources/view/droidnet/service.js:121 | a line appended after a line break becomes the last piece |
| Actions.Command | htdocs/luci-static/resources/view/droidnet/service.js:117 | only the list refresh sends no command |
| Actions.Argv | htdocs/luci-static/resources/view/droidnet/service.js:117 | every command is addressed with `-s <device>` |
| Actions.ArgvDetermines | htdocs/luci-static/resources/view/droidnet/network.js:204 | distinct actions or devices never send the same arguments |
| Actions.CommandDetermines | htdocs/luci-static/resources/view/droidnet/service.js:323 | each action has its own command |
| Actions.Airplane | htdocs/luci-static/resources/view/droidnet/network.js:269-303 | the airplane toggle fails iff the command printed anything, logging the version failure and showing the output in the notice; otherwise it logs the switch message and completes after 5 s; a rejected command logs and shows nothing |
| Actions.Remove | htdocs/luci-static/resources/view/droidnet/service.js:323-350 | removal succeeds iff the trimmed output is `Success`; a failure logs the untrimmed output |
| Actions.InstallPackage | htdocs/luci-static/resources/view/droidnet/service.js:466-516 | a cancelled upload closes the dialog without a log; installation succeeds iff the trimmed output is `Success`; the staged APK is removed once install answers |
| Actions.Run | htdocs/luci-static/resources/view/droidnet/network.js:190-256 | enable-data sends nothing iff airplane mode reads `true`, and then logs the airplane-mode failure and shows the danger notice; otherwise it logs that the network was switched on; disable-data logs that it was switched off; the list refresh sends nothing; every command carries `-s <device>` |
| Actions.LogWrite | htdocs/luci-static/resources/view/droidnet/service.js:118-122 | a log write happens iff the action has a message and the read succeeded |
| Actions.SettleWindows | htdocs/luci-static/resources/view/droidnet/service.js:128-344 | settle windows: 5 s radio toggles, 10 s special boot and refresh, 30 s restart, 15 s shutdown, 1 s removal |
| Actions.PowerMessage | htdocs/luci-static/resources/view/droidnet/service.js:117-123 | each power action logs its own message: Fastboot, Recovery, restarted, powered off |
| Actions.PowerSettle | htdocs/luci-static/resources/view/droidnet/service.js:128-140 | the settle wait is 10 s into a special boot mode, 30 s for a restart and 15 s for a shutdown |
| Actions.PowerLogsOnReply | htdocs/luci-static/resources/view/droidnet/service.js:117-123 | a power action logs iff its command resolved |
| Actions.NetworkButtons | htdocs/luci-static/resources/view/droidnet/network.js:186-310 | the network view offers only the four radio buttons |
| Actions.ButtonsMatchDisplay | htdocs/luci-static/resources/view/droidnet/network.js:186-310 | Enable shows iff the row reads Off, Disable iff it reads On |
| Actions.ServiceButtons | htdocs/luci-static/resources/view/droidnet/service.js:301-323 | the controls offer one removal per package row shown, and one for no other package |
| Actions.ConflictOffersNothing | htdocs/luci-static/resources/view/droidnet/service.js:569-579 | the device-conflict branch offers no action |
| Devices.ModelOf | htdocs/luci-static/resources/view/droidnet/setting.js:29-34 | the model is the text after `model:` of the last field that starts with it, or empty |
| Devices.DeviceOf | htdocs/luci-static/resources/view/droidnet/setting.js:27-35 | the serial is the first white-space separated field |
| Devices.TrimNoSpace | htdocs/luci-static/resources/view/droidnet/setting.js:28 | trimming a blank-free field changes nothing |
| Devices.DevicesOf | htdocs/luci-static/resources/view/droidnet/setting.js:26-36 | one device per line, in order |
| Devices.ParseDevices | htdocs/luci-static/resources/view/droidnet/setting.js:17-43 | failure or a diagnostic gives none; none iff no line follows the header; otherwise one device per line after it |
| Devices.ParsedLines | htdocs/luci-static/resources/view/droidnet/setting.js:23-37 | output with a line after the header gives the devices of those lines |
| Devices.ParseListing | htdocs/luci-static/resources/view/droidnet/setting.js:23-37 | a listing of devices parses back to exactly those devices |
| Devices.DevicesOfListing | htdocs/luci-static/resources/view/droidnet/setting.js:26-36 | listing lines parse back to their devices |
| Devices.LineRoundTrip | htdocs/luci-static/resources/view/droidnet/setting.js:27-35 | a listing line parses back to its device |
| Devices.Choices | htdocs/luci-static/resources/view/droidnet/setting.js:53-60 | no list offers no choice; every choice has a non-empty serial |
| Devices.ChoicesOf | htdocs/luci-static/resources/view/droidnet/setting.js:56-59 | the choices are exactly the listed devices with a serial: each choice is such a device and each such device is offered |
| Devices.ChoicesOfSerials | htdocs/luci-static/resources/view/droidnet/setting.js:56-59 | devices with serials are all offered, value serial and label model |
| Devices.ListingOffersDevices | htdocs/luci-static/resources/view/droidnet/setting.js:53-60 | a listing offers each of its devices, in order |
| Devices.SettingsDeclared | htdocs/luci-static/resources/view/droidnet/setting.js:67-108 | the seven declared options have distinct names and each is found by its name |
| Devices.DefaultsValid | htdocs/luci-static/resources/view/droidnet/setting.js:67-108 | the declared defaults are in their domains, and the tunnelling tool does not apply by default |
| Devices.TunnelAppliesIff | htdocs/luci-static/resources/view/droidnet/setting.js:100-108 | the tunnelling tool applies iff `restart` is `1` |
| Devices.Domains | htdocs/luci-static/resources/view/droidnet/setting.js:67-89 | an unfolding of validity at three options: ping attempts are 1..5, the wait 1..3 seconds, `enabled` 0 or 1 |
| LogView.LoadLog | htdocs/luci-static/resources/view/droidnet/log.js:18-29 | a failed read or a blank file loads as nothing; otherwise the trimmed text, never blank |
| LogView.Initial | htdocs/luci-static/resources/view/droidnet/log.js:56-63 | with nothing loaded the text area is empty |
| LogView.PollTick | htdocs/luci-static/resources/view/droidnet/log.js:65-76 | a tick outside direction `up` leaves the text alone |
| LogView.Flip | htdocs/luci-static/resources/view/droidnet/log.js:71 | the lines of the flipped text are the shown lines in reverse order |
| LogView.TickKeepsLines | htdocs/luci-static/resources/view/droidnet/log.js:70-73 | an `up` tick keeps the number of lines and every line |
| LogView.TwoTicksRestore | htdocs/luci-static/resources/view/droidnet/log.js:65-73 | two `up` ticks in a row restore the text |
| LogView.IntendedTick | htdocs/luci-static/resources/view/droidnet/log.js:65-76 | corrected: the shown lines are the loaded lines, reversed while `up` is selected |
| LogView.IntendedTickSettles | htdocs/luci-static/resources/view/droidnet/log.js:65-76 | corrected: a second tick changes nothing |
| LogView.TickFlipsBack | htdocs/luci-static/resources/view/droidnet/log.js:65-76 | as written a two-line log is back in file order after the second `up` tick; corrected it stays newest first |

## Left out

- Page layout, DOM building, CSS classes, modal dialogs as visual elements: presentation only; the model keeps which dialog ends an action (`Shown`).
- The SIM tab switching and the IP, IMEI and driver display cells: they print a field as is. The operator, network-type and MCC/MNC cells pick the SIM's element of a list, which `Network.SimCell` models.
- Service.ColumnField: the lookup `properties[header[i]]` also finds members inherited from `Object.prototype` (a header cell `constructor`, say); the model gives such a cell no field.
- `setTimeout` and `poll.add` scheduling: only the wait lengths are kept (`Outcome.settleMs`); `window.location.reload` after a wait is not modelled.
- Locale date and time strings (`toLocaleDateString`, `toLocaleTimeString`): they are inputs to `Logbook.Entry`.
- `Promise.all` concurrency and unhandled rejections of the log writes: the parsers are applied to already settled results.
- `Text.ToLower`: only ASCII letters are lowered, not the full Unicode case mapping of `toLowerCase`.
- `syslog.innerHTML = value`: HTML parsing of the log text is not modelled; the new value is taken as the text shown.
- The uci/form framework behind the setting view (storage, `rmempty`, validation messages): only each option's domain, default and dependency is modelled.
- The watchdog and shell scripts the views call: they sit behind `fs.exec` and are inputs.
- Logbook.Append: its contract states only when a write happens; what is written is stated by `Logbook.AppendPrefix`, `Logbook.TrimAfterAppend` and `Logbook.AppendKeepsHistory` for single-line entries, and repeated appends are not stated as one lemma.
- Service.PackagesView: states only that the table needs a package list; a non-list value (a diagnostic in place of the list) is a render fault, not modelled further.
- LogView.Initial: states only the empty case; a loaded log is shown as loaded.

## Findings

| source | as written | input that shows it | evidently intended | confidence | as-written member | corrected member |
|---|---|---|---|---|---|---|
| htdocs/luci-static/resources/view/droidnet/network.js:405-406 | the roaming row of both SIM tabs tests `data.roaming[0]`, so SIM 2 shows SIM 1's flag and a single-SIM value (a plain string) reads `-` | `roaming` = `"true"` (one SIM) shows `-`; `roaming` = `["false","true"]` shows Off on the SIM 2 tab | each tab reads its own SIM's element, or the plain value for a single SIM, as the other rows do | not executed | Network.RoamingAsWritten | Network.Roaming |
| htdocs/luci-static/resources/view/droidnet/service.js:552 | the first caption is `'Displaying 1-' + itemsPerPage + ' of ' + packages.length` | three packages: the caption reads `Displaying 1-10 of 3` | the caption `updatePageInfo` writes for page 1: `Displaying 1-3 of 3` | not executed | Paginator.InitialInfoAsWritten | Paginator.InitialInfo |
| htdocs/luci-static/resources/view/droidnet/log.js:65-76 | with direction `up` every poll tick reverses the text currently shown, so the order alternates | log `a\nb`, direction `up`: after two ticks the text reads `a\nb` again | while `up` is selected, show the loaded log newest line first and keep it so | not executed | LogView.PollTick | LogView.IntendedTick |
