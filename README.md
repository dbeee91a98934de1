# Tremulous server browser, status parser, JSON scanner and HUD counters in Dafny

This project models four parts of the Tremulous game client and proves
properties of each:

- **The server browser of the user interface** (`src/ui/ui_main.c`):
  - the checks and transforms on a server's info and address:
    `UI_ServerInfoIsValid`, `UI_SanitiseString`, `UI_PortFromAddress`,
    `UI_ProtocolFromAddress`;
  - the display list of servers:
    - `UI_RemoveServerFromDisplayList`;
    - `UI_InsertServerIntoDisplayList`, with its duplicate-server scan;
    - `UI_BinaryServerInsertion`;
  - the refresh cycle: `UI_BuildServerDisplayList`, `UI_StopServerRefresh`,
    `UI_DoServerRefresh`, `UI_UpdatePendingPings`, `UI_StartServerRefresh`
    and `UI_ServersSort`;
  - the server status parser: `UI_SortServerStatusInfo` and
    `UI_GetServerStatusInfo`;
  - the player search: `stristr`, `UI_BuildFindPlayerList` and
    `UI_ClientNumbersFromString`;
  - the small formatters: `GCD`, `UI_DisplayAspectString`,
    `UI_ReadableSize`, `UI_PrintTime`, and the line splitter of
    `UI_UpdateNews`.
- **The in-place JSON scanner** (`src/qcommon/json.cpp`, `json.h`). A JSON
  text is a character sequence, and a `const char *` into it is an index. `jsonEnd`
  is the length of the sequence, and `NULL` is `None` or `Null`.
- **The integer bookkeeping of the HUD** (`src/cgame/cg_draw.c`):
  - the digit fields of `CG_DrawField` and `CG_DrawFieldPadded`;
  - the clock, the timer and the ordinal of the spawn-queue message;
  - the lagometer's ring buffers.

Modules follow the files:

| Module | File | Contents |
|---|---|---|
| `Common` | `common.dfy` | The C semantics the sources rely on: truncating `/` and `%`, the ctype classes, `%d`, `atoi`. |
| `Json` | `json.dfy` | The JSON scanner. |
| `Hud` | `hud.dfy` | The HUD digit fields, clock, timer and spawn-queue ordinal. |
| `Lagometer` | `lagometer.dfy` | The lagometer's ring buffers. |
| `Address` | `address.dfy` | The server-info and address helpers. |
| `DisplayList` | `displaylist.dfy` | The display list. |
| `Browser` | `browser.dfy` | The refresh cycle. |
| `StatusInfo` | `statusinfo.dfy` | The server status parser. |
| `StatusOrigin` | `statusorigin.dfy` | Where the rows of the sorted status table come from. |
| `FindPlayer` | `findplayer.dfy` | The player search. |
| `UiFormat` | `uiformat.dfy` | The small formatters. |

Code that is pure in the source is modelled as functions on values. Code
that is imperative or mixed is modelled as methods, each proved equal to a
specification function of the old state:

- The display list is the class `DisplayList.DisplayServers`, an array with
  a live prefix.
- The browser state is the class `Browser.ServerBrowser`.
- The status table is the class `StatusInfo.ServerStatusInfo`.
- The player-search scheduler is the class `FindPlayer.FindPlayerSearch`.
- The lagometer is the class `Lagometer.Lagometer`.

The engine (`trap_*`) becomes an input:

- the server registry is a sequence of `Host` records, one per server, with
  the fields the code reads through `Info_ValueForKey`;
- the ping comparison is `cmp`;
- the status replies are a function from address to optional reply text;
- the clock is an integer;
- `Q_CleanStr` and `Q_IsColorString` are function parameters.

The buffer sizes come from a header that is not part of this model:
`MAX_SERVERSTATUS_LINES`, `MAX_FOUNDPLAYER_SERVERS`,
`MAX_SERVERSTATUSREQUESTS`, `MAX_ADDRESSLENGTH`, `MAX_HOSTNAME_LENGTH`,
`MAX_NEWS_LINES` and `MAX_NEWS_LINEWIDTH`. They are parameters. So is the
size of the display array. Room is judged where the C writes: after the
duplicate scan has evicted, counted and possibly rejected, and only for a
valid server. An insertion whose shift would then reach past the array
keeps the scan's evictions and counters, stores nothing and sets the
browser's `overflowed` flag, where the C writes past the array. A rejected
or invalid server never overflows, and a list with room for `n + 2`
entries before the scan never does (`DisplayList.RoomMeansNoOverflow`).
`Browser.BuildFits` and `Browser.RefreshFits` give room that is enough to
rule this out; they are not the least room.

Where the code and its documentation disagree, the model follows the code.
Each case below is stated as a proved property:

- **Protocol ranking of duplicates.** `UI_ProtocolFromAddress` numbers
  the protocols 2 for 1.1, 1 for gpp and 0 for the current one
  (`ui_main.c:400-404`). Between duplicate listings of one server, the
  listing with the lower number is kept (`:572-585`), which is the newest
  protocol, as the code's comment says. See
  `DisplayList.RejectedHasDuplicate`.
- **Host-name suffix cut.** The newcomer's host name loses 6 characters
  (`:497`), but an incumbent's loses 7 (`:559`). See
  `DisplayList.IsDuplicate` and `DisplayList.ExampleVerdict`.
- **Insertion position after a removal.** When a duplicate below the
  insertion point is removed, the insertion still uses the position
  computed before the removal (`:476`, `:580-581`, `:589-592`). The new
  server then lands one place past the live prefix, and a stale entry
  reappears. See `DisplayList.StaleSlotAfterRemoval`.
- **Array capacity.** The insertion shift reads one element beyond the
  live prefix, so the array needs room for `n + 2` entries, with `n`
  counted after the scan's evictions (`:586-590`).
- **Equal comparison in the binary search.** An `Equal` comparison inserts
  *at* `offset + mid` (`:622`).
- **Header row in the player search.** The header row of a status reply
  has a ping column, so the player search scans it like a player
  (`:940-958`, `FindPlayer.HeaderRowMatches`).
- **Unreachable "no servers found" branch.** A search always keeps at least
  its label line. The "no servers found" branch (`:1038`) is therefore
  unreachable, and its `foundPlayerServerNames[-1]` write never happens.
- **`JSON_ObjectGetNamedValue` at the end of the text.** It returns
  `jsonEnd`, not `NULL`, when the matching key is the last thing in the
  text (`json.cpp:124-146`).
- **`JSON_ValueGetString` length.** It returns the unquoted length
  *without* the terminating NUL (`json.cpp:200`). The header comment says
  the NUL is included (`json.h:74-75`).

## Model

| member | source | states |
|---|---|---|
| Json.TypeCode | src/qcommon/json.h:24-31 | The five type codes are distinct and below 5; code 4 is exactly the error type. |
| Json.SkipSeparators | src/qcommon/json.cpp:10-16 | The result lies in the text from the start on; every character skipped is a separator (`IS_SEPARATOR`); it stops at the end or at a non-separator. |
| Json.SkipSeparatorsFindsFirst | src/qcommon/json.cpp:10-16 | The result is the first position at or after the start that holds no separator, or the end. |
| Json.SkipStringLoop | src/qcommon/json.cpp:35-37 | The scan for the closing quote never moves back, stops at most one past the end, and short of the end it stops on a quote. |
| Json.SkipString | src/qcommon/json.cpp:33-40 | Skipping a string moves strictly forward, at most to the end; short of the end, the character before the result is the closing quote. |
| Json.BackslashRun | src/qcommon/json.cpp:35-37 | The run of backslashes just before a position is no longer than the text scanned. |
| Json.EscapeStep | src/qcommon/json.cpp:35-37 | One step of the string loop after an even run of backslashes lands after an even run again; the character stepped over after a backslash follows an odd run. |
| Json.SkipStringLoopEscapes | src/qcommon/json.cpp:35-37 | The loop passes over every quote that follows an odd run of backslashes. Short of the end, it stops on a quote that follows an even run. |
| Json.SkipStringEscapes | src/qcommon/json.cpp:33-40 | A string ends at its first quote after an even run of backslashes: no earlier such quote exists. Short of the end, the character before the result is such a quote. |
| Json.SkipBare | src/qcommon/json.cpp:52-53 | A bare value skips only characters that are neither separators nor closing brackets, and stops at the end or at the first such character. |
| Json.SkipValue | src/qcommon/json.cpp:42-57 | Skipping a value stays in the text; at or past the end it yields the end; from the start of an element it moves forward. |
| Json.SkipStruct | src/qcommon/json.cpp:24-31 | Skipping an object or array moves strictly forward, at most to the end. |
| Json.SkipStructLoop | src/qcommon/json.cpp:27-28 | The loop over the members of a struct stops at the end or on a closing bracket or brace. |
| Json.SkipValueAndSeparators | src/qcommon/json.cpp:18-22 | Skipping a value then its separators stays in the text, lands on a non-separator or the end, and moves forward from the start of an element. |
| Json.NoParse | src/qcommon/json.cpp:59-69 | Returns 1 exactly at the end of data or at `f`/`n`, 2 exactly at `t`, and 0 otherwise. |
| Json.ArrayGetFirstValue | src/qcommon/json.cpp:75-83 | A result is an element start: the first non-separator after the opening bracket, not a closing bracket; no result means the text is not an array, ends, or is empty. |
| Json.ArrayGetNextValue | src/qcommon/json.cpp:85-93 | A result is the first non-separator after the current value and the run of separators after it (space, tab, CR, LF, ',' and ':', so `[1 2]` steps from `1` to `2`), and is an element start; no result from an element means that non-separator closes a structure (`]` or `}`) or the data ends there. |
| Json.ElementsFrom | src/qcommon/json.cpp:95-110 | The list from a value begins with that value; the list from NULL is empty. |
| Json.ElementsFromOrdered | src/qcommon/json.cpp:95-110 | The list from a value holds element starts only, in strictly increasing order, none before that value. |
| Json.ElementsStep | src/qcommon/json.cpp:85-93 | The element list from a value is that value followed by the list from its successor. |
| Json.StoreIndex | src/qcommon/json.cpp:101-105 | Storing element `length` extends the filled prefix of `indexes` by one slot and leaves every other slot as it was. |
| Json.ArrayGetIndex | src/qcommon/json.cpp:95-110 | Returns the number of elements; writes the k-th element's position into `indexes[k]` for every k below both that number and `numIndexes`, and no other entry. |
| Json.ArrayGetValue | src/qcommon/json.cpp:112-118 | Returns the position of the element with the given index, or NULL when the array has fewer elements. |
| Json.AfterKey | src/qcommon/json.cpp:131-141 | The value after a key lies past the key, within the text, and on a non-separator unless at the end. |
| Json.KeysScanned | src/qcommon/json.cpp:124-146 | Every key the lookup compares is a position in the text that holds a quote. |
| Json.FirstMatch | src/qcommon/json.cpp:124-146 | No result exactly when no key of the object equals the name; a result is the value of the first matching key. |
| Json.NamedValueIsFirstMatch | src/qcommon/json.cpp:124-146 | The lookup the code performs equals the first-match specification. |
| Json.NamedValueMatch | src/qcommon/json.cpp:130-142 | One pass of the lookup loop on a matching quoted key answers the cursor after that key and its separators. |
| Json.NamedValueSkipKey | src/qcommon/json.cpp:130-142 | One pass of the lookup loop on a quoted key that does not match goes on from the element after the key's value, further on in the data. |
| Json.NamedValueSkipOther | src/qcommon/json.cpp:130-142 | One pass of the lookup loop on an element that is not a quoted key goes on from the next element, further on in the data. |
| Json.ObjectGetNamedValue | src/qcommon/json.cpp:124-146 | The loop method returns the first-match value, always a position at most `jsonEnd`, which can be `jsonEnd` itself. |
| Json.ValueGetType | src/qcommon/json.cpp:152-164 | The type is ERROR exactly at the end of data, STRING exactly at `"`, OBJECT at `{`, ARRAY at `[`, and VALUE otherwise. |
| Json.StringSpan | src/qcommon/json.cpp:166-185 | The copied text of a value is a range that starts at or after the value and ends inside the JSON text. |
| Json.CopyOut | src/qcommon/json.cpp:187-198 | Copies the span's characters into the caller's buffer up to its size less one, then a NUL; nothing else changes. |
| Json.ValueGetString | src/qcommon/json.cpp:166-201 | Returns 0 at the end of data; otherwise returns the unquoted length (without the NUL) and copies the truncated text plus a NUL into the buffer. |
| Json.ValueGetInt | src/qcommon/json.cpp:237-252 | 0 at the end of data, at `false` and at `null`; 1 at `true`; 0 when the value has no text. |
| Json.ElementsMeaning | src/qcommon/json.cpp:95-110 | The elements are element starts in strictly increasing order. Only a cursor on an opening bracket has elements; the first element is the first non-separator after the bracket. A NULL cursor, a cursor past the data or a cursor not on an opening bracket has none. |
| Json.KeyMatches | src/qcommon/json.cpp:134-141 | A matching key has the name's characters right after its opening quote, inside the text. |
| Json.KeyTest | src/qcommon/json.cpp:134-141 | The length-and-`strncmp` test of the loop decides exactly whether the key matches. |
| Json.NamedValueFrom | src/qcommon/json.cpp:124-146 | No result from NULL. A result lies after the scan's start and within the text, on a non-separator unless at the end. |
| Hud.CapWidth | src/cgame/cg_draw.c:117-118 | The field width is capped at 4 digits: it lies in 1..4 and a width up to 4 is kept. (Also lines 197-198.) |
| Hud.ClampValue | src/cgame/cg_draw.c:120-138 | The clamped value lies in the width's range (0..9, -9..99, -99..999, -999..9999); a value in range is kept, and one above or below becomes the bound. (Also lines 200-218.) |
| Hud.FieldRangeIsFit | src/cgame/cg_draw.c:120-138 | The clamp range of a width holds exactly the values whose `%d` text fits in that width. (Also lines 200-218.) |
| Hud.ClampFits | src/cgame/cg_draw.c:200-224 | After the clamp the `%d` text fits the width, so the cut at 223-224 never shortens it; the value is kept exactly when its text already fits. |
| Hud.GlyphOf | src/cgame/cg_draw.c:161-164 | The minus glyph (`STAT_MINUS`) exactly for a minus sign; a digit maps to the glyph of its value. (Also lines 231-234.) |
| Hud.Glyphs | src/cgame/cg_draw.c:228-240 | One glyph per character of the text, in order. |
| Hud.Zeros | src/cgame/cg_draw.c:153-158 | A run of n zero glyphs has length n. |
| Hud.ZerosSnoc | src/cgame/cg_draw.c:153-158 | Drawing one more zero glyph extends the run of zeros by one. |
| Hud.FieldText | src/cgame/cg_draw.c:140-144 | The text drawn has 1..width characters, each a digit or a minus sign. (Also lines 220-224.) |
| Hud.DrawField | src/cgame/cg_draw.c:180-241 | Nothing for a width below 1; otherwise the glyphs of the clamped value, right-aligned in the capped width. |
| Hud.DrawFieldPadded | src/cgame/cg_draw.c:100-171 | Exactly `width` glyphs: zero glyphs to the left, then the glyphs of the clamped value. |
| Hud.PaintPadded | src/cgame/cg_draw.c:141-170 | For a non-empty number text that fits, exactly w glyphs: a zero glyph for each unused place, then the glyph of each character. |
| Hud.PaintRight | src/cgame/cg_draw.c:220-240 | For a number text that fits, one glyph per character, the k-th at slot w - length + k, so the text ends at the right edge. |
| Hud.OrdinalSuffix | src/cgame/cg_draw.c:3546-3562 | The suffix is "st", "nd" or "rd" exactly when the last digit is 1, 2 or 3 and the last two digits are not 11-13; "th" otherwise. |
| Hud.QueueMessage | src/cgame/cg_draw.c:3542-3565 | No message exactly when the queue position plus one is below 1; otherwise "You are ", that number, its ordinal suffix and " in the spawn queue". |
| Hud.OrdinalPeriodic | src/cgame/cg_draw.c:3546-3562 | The suffix repeats every 100 positions. |
| Hud.TwelveHour | src/cgame/cg_draw.c:2049-2062 | The 12-hour clock hour lies in 1..12 and is congruent to the 24-hour hour mod 12; it is "pm" exactly from 12:00. |
| Hud.TwelveHourRoundTrip | src/cgame/cg_draw.c:2049-2062 | The 24-hour hour is recovered from the 12-hour hour and the am/pm flag. |
| Hud.ClockText | src/cgame/cg_draw.c:2044-2064 | In mode 1 (any non-zero mode but 2), the clock text ends in "am" or "pm"; mode 0 draws nothing and builds no text (`:2039-2040`), so the function's value there is never shown. |
| Hud.TimerSplit | src/cgame/cg_draw.c:1763-1771 | Minutes, tens and seconds recompose the elapsed whole seconds (C division); for a non-negative time tens lie in 0..5 and seconds in 0..9, and for a negative one all three are at most 0. |
| Hud.HundredShift | src/cgame/cg_draw.c:3546-3562 | Adding 100 keeps the last digit and the last two digits. |
| Hud.TimerText | src/cgame/cg_draw.c:1763-1771 | For a non-negative time, the text is the minutes, a colon and two digits. `atoi` of the minutes times 60, plus the two digits read as tens and seconds, gives the whole seconds elapsed. |
| Hud.TimerDigits | src/cgame/cg_draw.c:1771 | The text of minutes, a colon and two single digits reads back: `atoi` gives the minutes, and the two characters give the tens and the seconds. |
| Lagometer.Slot | src/cgame/cg_draw.c:2207 | The slot of a counter masked to the 128-entry ring lies in 0..127. |
| Lagometer.SumBounds | src/cgame/cg_draw.c:2247-2250 | The sum of pings that lie in 0..hi lies in 0..(count times hi). |
| Lagometer.MeanBounds | src/cgame/cg_draw.c:2247-2252 | When the 40 stored pings lie in 0..hi, the displayed ping (their sum divided by 40, truncated) lies in 0..hi. |
| Lagometer.Lagometer.constructor | src/cgame/cg_draw.c:2182-2193 | All rings, the ping history and the counters start at zero. (Also lines 2224-2225.) |
| Lagometer.Lagometer.AddFrameInfo | src/cgame/cg_draw.c:2202-2209 | Writes the frame offset into slot `frameCount & 127` and increments the frame counter; nothing else changes. |
| Lagometer.Lagometer.AddSnapshotInfo | src/cgame/cg_draw.c:2222-2254 | A dropped snapshot writes -1 into the snapshot slot; otherwise the ping and flags are written, the ping history records the ping at its wrapping index, and the displayed ping is the truncated mean of the 40 stored pings. |
| Address.AllPrintableFromAll | src/ui/ui_main.c:318-323 | The printable-character scan succeeds exactly when every character is printable. |
| Address.GraphCount | src/ui/ui_main.c:325-331 | Counts the graphic characters of the host name. |
| Address.GraphCountPositive | src/ui/ui_main.c:325-333 | The count is positive exactly when some character is graphic. |
| Address.ServerInfoIsValidMeaning | src/ui/ui_main.c:313-334 | A server's info is valid exactly when all of it is printable and its host name holds a graphic character. |
| Address.SanitiseFromBounds | src/ui/ui_main.c:343-363 | The scan keeps at most `len - 1` characters, each a digit or a lower-case letter. |
| Address.SanitiseBounds | src/ui/ui_main.c:343-363 | The sanitised string fits its buffer and holds only digits and lower-case letters. |
| Address.AlnumLower | src/ui/ui_main.c:352-359 | Keeps the alphanumeric characters, lower-cased, in order. |
| Address.SanitiseFromIsFilter | src/ui/ui_main.c:343-363 | The scan equals stripping colour codes, then filtering and lowering, then truncating. |
| Address.SanitiseIsFilter | src/ui/ui_main.c:343-363 | The sanitised text is the colour-stripped, alphanumeric, lower-cased text cut to `len - 1` characters. |
| Address.BeforeSpace | src/ui/ui_main.c:377-384 | The prefix up to the first space, which holds no space. |
| Address.AfterFirst | src/ui/ui_main.c:386-392 | The text after the first occurrence of a character, when there is one. |
| Address.PortScanFound | src/ui/ui_main.c:386-392 | The colon scan finds exactly the first colon. |
| Address.PortScanIsPortText | src/ui/ui_main.c:370-398 | The scan for the port yields the text after the first colon, before the first space. |
| Address.PortFromAddressText | src/ui/ui_main.c:370-398 | -1 for an empty address or an empty port text; otherwise `atoi` of the port text. |
| Address.ProtocolScan | src/ui/ui_main.c:412-428 | The dash scan returns 0, 1 or 2. |
| Address.ProtocolScanFirstDash | src/ui/ui_main.c:412-428 | The scan decides at the first dash that has a following character. |
| Address.FirstDashUnique | src/ui/ui_main.c:412-428 | That first dash is unique. |
| Address.ProtocolFromAddressFirstDash | src/ui/ui_main.c:407-432 | The protocol is 2 exactly when the first dash with a following character is followed by `1`, 1 exactly when it is followed by `g`, and 0 otherwise. |
| Address.SameUpToPortMeaning | src/ui/ui_main.c:520-540 | Two addresses compare equal up to the port exactly when their first characters are equal and they agree at every later position both reach that has no ':' of the first address between index 1 and it. The comparison stops after the first ':' of the first address, and a prefix compares equal. |
| Address.SameUpToPortCorrect | src/ui/ui_main.c:520-540 | The character loop of the comparison equals that definition. |
| Address.ServerInfoIsValid | src/ui/ui_main.c:313-334 | A valid info is printable throughout and has a non-empty host name. |
| Address.SanitiseFrom | src/ui/ui_main.c:343-363 | The scan from index i keeps at most the characters left from i. |
| Address.Sanitise | src/ui/ui_main.c:343-363 | The result is no longer than the input, and is empty for a buffer of at most one byte. |
| Address.PortScan | src/ui/ui_main.c:386-392 | An address without a colon has an empty port text. |
| Address.PortFromAddress | src/ui/ui_main.c:370-398 | An address without a colon has port -1. |
| Address.ProtocolFromAddress | src/ui/ui_main.c:407-432 | The protocol lies in 0..2, and is 0 for an address without a dash. |
| Address.SameUpToPortFrom | src/ui/ui_main.c:525-535 | The loop from j reports a match whenever one address is a prefix of the other. |
| Address.SameUpToPort | src/ui/ui_main.c:520-540 | Two non-empty addresses, one a prefix of the other, compare equal. |
| DisplayList.IndexOf | src/ui/ui_main.c:443-455 | The index of the first occurrence of a listed server: it holds the server and nothing before it does. |
| DisplayList.FirstOccurrence | src/ui/ui_main.c:443-455 | An index that holds the server with no earlier occurrence is the first occurrence. |
| DisplayList.RemoveFirstAt | src/ui/ui_main.c:443-455 | Removing a listed server drops exactly its first occurrence. |
| DisplayList.RemoveFirstAbsent | src/ui/ui_main.c:443-455 | Removing an absent server changes nothing. |
| DisplayList.RemoveFirstSubset | src/ui/ui_main.c:443-455 | Removal only takes servers away. |
| DisplayList.RemoveSpec | src/ui/ui_main.c:439-458 | The listing stays well formed with the same array size and duplicate counters; the count drops by one when the server was listed. |
| DisplayList.RemoveSpecMeaning | src/ui/ui_main.c:439-458 | The live servers lose the first occurrence of the server; the array from the new count on is unchanged; an absent server leaves the listing unchanged. |
| DisplayList.ShiftInsert | src/ui/ui_main.c:589-592 | The shift keeps the array size. |
| DisplayList.ShiftInsertAt | src/ui/ui_main.c:589-592 | After the shift, the position holds the new server, the entries after it up to n+1 hold their left neighbours, and the rest is kept. |
| DisplayList.ShiftInsertLive | src/ui/ui_main.c:589-592 | The first n+1 entries are the old live prefix with the server spliced in at the position; entry n+1 is a copy of entry n; the rest is kept. |
| DisplayList.Classify | src/ui/ui_main.c:510-569 | A listing is a duplicate exactly when it matches the newcomer's key; then its protocol and clients are those of the incumbent. |
| DisplayList.Dedup | src/ui/ui_main.c:503-584 | The scan keeps the listing well formed and the array size, and never adds a server. |
| DisplayList.ScanStep | src/ui/ui_main.c:505-583 | One pass over an incumbent keeps the listing well formed. |
| DisplayList.ScanStepDedup | src/ui/ui_main.c:503-584 | A rejecting pass ends the scan with a rejection; otherwise the scan from the next index, with strictly less left to scan, gives the same result. |
| DisplayList.Evict | src/ui/ui_main.c:570 | Evicting a duplicate removes one server, adds one to `numDuplicateServers` and adds its clients to the duplicate client total. (Also lines 578-582.) |
| DisplayList.RemoveSpecSubset | src/ui/ui_main.c:439-458 | After a removal, the live servers are a sub-multiset of those before. |
| DisplayList.EvictSubset | src/ui/ui_main.c:578-582 | After an eviction, the live servers are a sub-multiset of those before. |
| DisplayList.DedupSubset | src/ui/ui_main.c:503-584 | After the scan, the live servers are a sub-multiset of those before. |
| DisplayList.InsertSpec | src/ui/ui_main.c:465-595 | Insertion keeps the listing well formed and the array size, and adds at most one server, whatever the room in the array. |
| DisplayList.RoomMeansNoOverflow | src/ui/ui_main.c:586-590 | With room for `n + 2` entries before the scan, the insertion never overflows: the scan only lowers the count. |
| DisplayList.OverflowKeepsScan | src/ui/ui_main.c:503-594 | An overflow happens only after a clear scan, when the count after evictions leaves no slot for the shift or the stale position equals the array size; the insertion then reports success and keeps exactly the scan's evictions and counters. |
| DisplayList.SmallScan | src/ui/ui_main.c:503-584 | In the two-slot example the scan evicts the tagged duplicate and comes back clear with an empty list and one duplicate counted. |
| DisplayList.RoomFreedByScan | src/ui/ui_main.c:503-594 | A two-slot array with one listed server has no room before the scan, yet the scan evicts the duplicate and the newcomer is stored at slot 1 with no overflow. |
| DisplayList.Place | src/ui/ui_main.c:586-594 | Placing keeps the listing well formed and adds at most one server; when the shift would pass the array it reports success and leaves the scanned listing unchanged. |
| DisplayList.DedupCounts | src/ui/ui_main.c:503-584 | The duplicate counter grows by the number of listings removed, plus one if the newcomer is rejected. The duplicate client total grows by the clients of the removed listings, plus the newcomer's clients on a rejection. |
| DisplayList.DedupUntouched | src/ui/ui_main.c:503-584 | A scan that neither rejects nor removes leaves the listing exactly as it was. |
| DisplayList.RejectedHasDuplicate | src/ui/ui_main.c:569-576 | A rejected newcomer has a listed duplicate whose protocol number is no greater than its own. |
| DisplayList.ClearHasNoDuplicate | src/ui/ui_main.c:503-584 | When the newcomer is not rejected, no live server left in the list is a duplicate of it. |
| DisplayList.EvictKeepsPrefix | src/ui/ui_main.c:578-582 | Evicting the server at index i keeps the servers before i and a list free of repeats. |
| DisplayList.IndexOfDistinct | src/ui/ui_main.c:443-455 | In a list without repeats, the first occurrence of the k-th server is k. |
| DisplayList.DistinctWithout | src/ui/ui_main.c:443-455 | Dropping one entry keeps a list free of repeats. |
| DisplayList.RemoveAtDistinct | src/ui/ui_main.c:439-458 | In a list without repeats, removing the server at index i drops exactly that index. |
| DisplayList.InsertPlacement | src/ui/ui_main.c:465-595 | For any listing, with or without room: a position outside 0..count or an invalid server info leaves the listing unchanged, and success implies a position in range; on a success that does not overflow, the count is the scanned count plus one, the server is written at the position, and the live servers are the survivors with it spliced in. |
| DisplayList.PlaceClear | src/ui/ui_main.c:586-594 | Placing succeeds only after a scan without rejection; when the shift fits, it then adds one server at the position, keeps the counters, and splices it into the live servers. |
| DisplayList.SearchFrom | src/ui/ui_main.c:608-640 | The binary search returns a position within the list. |
| DisplayList.SearchPosition | src/ui/ui_main.c:602-641 | The search over the live servers returns a position within them. |
| DisplayList.SearchFromEqual | src/ui/ui_main.c:618-623 | When the search stops on an Equal comparison, the server at that index compares equal to the newcomer. |
| DisplayList.SearchPositionBounds | src/ui/ui_main.c:602-641 | The position is at most the count; an Equal result points at a server that compares equal. |
| DisplayList.RankedAt | src/ui/ui_main.c:602-641 | For a comparison given by a rank, comparing two servers is the three-way comparison of their ranks. |
| DisplayList.AscendingAround | src/ui/ui_main.c:602-641 | In an ascending key list, keys before an index are at most its key and keys after it at least. |
| DisplayList.KeySearch | src/ui/ui_main.c:608-640 | The search on the rank keys returns a position within the list. |
| DisplayList.SearchFromKeys | src/ui/ui_main.c:608-640 | When every comparison is the three-way comparison of rank keys, the search equals the search on the keys. |
| DisplayList.KeySearchBelow | src/ui/ui_main.c:608-640 | On ascending keys, every key before the position is at most the newcomer's key. |
| DisplayList.KeySearchAbove | src/ui/ui_main.c:608-640 | On ascending keys, every key from the position on is at least the newcomer's key. |
| DisplayList.Keys | src/ui/ui_main.c:602-641 | The rank keys of the live servers, one per server. |
| DisplayList.KeysOfRanked | src/ui/ui_main.c:602-641 | A list sorted by rank has ascending keys, and every comparison with the newcomer is the comparison of its key. |
| DisplayList.SearchPositionSplits | src/ui/ui_main.c:602-641 | On a list sorted by rank, the servers before the position rank at most the newcomer and those after rank at least. |
| DisplayList.InsertKeepsSorted | src/ui/ui_main.c:586-594 | Splicing in at such a split position keeps the list sorted. |
| DisplayList.BinaryInsertSpec | src/ui/ui_main.c:602-641 | The binary insertion keeps the listing well formed and the array size, and adds at most one server. |
| DisplayList.InsertWithoutDuplicates | src/ui/ui_main.c:465-595 | With no duplicate found, insertion succeeds exactly when the server's info is valid, and a failure changes nothing, whatever the room; with room for `n + 2` a success splices the server in at the position and keeps the counters, and without it the listing is unchanged. |
| DisplayList.BinaryInsertKeepsSorted | src/ui/ui_main.c:602-641 | Into a list sorted by rank with no duplicate of the server, the binary insertion succeeds exactly when the info is valid, and a failure changes nothing, whatever the room; with room for `n + 2` a success keeps the list sorted, adds exactly the server and leaves the counters alone, and without it the listing is unchanged. |
| DisplayList.ExampleAddresses | src/ui/ui_main.c:370-432 | "x-g" and "x" both have no port, have protocols 1 and 0, and compare equal up to the port. |
| DisplayList.ExampleVerdict | src/ui/ui_main.c:497 | For a concrete registry, the incumbent is a duplicate of the newcomer with protocol 1 against the newcomer's 0. (Also line 559.) |
| DisplayList.ExampleKey | src/ui/ui_main.c:486-500 | The key of a concrete newcomer: address "x", protocol 0, port -1. |
| DisplayList.ExampleScan | src/ui/ui_main.c:503-584 | A concrete scan that evicts the incumbent and counts one duplicate. |
| DisplayList.ExampleSearch | src/ui/ui_main.c:602-641 | A concrete binary search position. |
| DisplayList.ExampleValid | src/ui/ui_main.c:313-334 | A concrete server info is valid. |
| DisplayList.ExampleInsert | src/ui/ui_main.c:465-595 | A concrete insertion and its resulting listing. |
| DisplayList.StaleSlotAfterRemoval | src/ui/ui_main.c:476 | The binary insertion computes position 1, evicts the duplicate below it, and writes the newcomer at index 1 while the count is 1: the newcomer is outside the live prefix, which still shows the stale entry. (Also lines 580-581, 589-592.) |
| DisplayList.NoColonNoPort | src/ui/ui_main.c:370-398 | A non-empty address without a colon has port -1. |
| DisplayList.DisplayServers.Listed | src/ui/ui_main.c:439-641 | The abstract listing is well formed and has the array's size. |
| DisplayList.DisplayServers.constructor | src/ui/ui_main.c:439-641 | An empty listing over a zeroed array. |
| DisplayList.DisplayServers.RemoveServer | src/ui/ui_main.c:439-458 | The listing becomes the removal specification of the old one. |
| DisplayList.DisplayServers.ShiftDown | src/ui/ui_main.c:447-452 | The entries after index i up to the count move down one place; the rest is kept. |
| DisplayList.DisplayServers.ShiftUp | src/ui/ui_main.c:589-592 | The entries after the position up to the count move up one place, the position holds the server, and the rest is kept. |
| DisplayList.DisplayServers.InsertServer | src/ui/ui_main.c:465-595 | The verdict and the listing are the insertion specification of the old listing; the overflow result is exactly `InsertOverflows`. |
| DisplayList.DisplayServers.PlaceServer | src/ui/ui_main.c:503-594 | The verdict and the listing are the placement after the duplicate scan; the overflow result says whether the shift would pass the array. |
| DisplayList.DisplayServers.Grow | src/ui/ui_main.c:589-594 | The array becomes the shift of the old one and the count grows by one. |
| DisplayList.DisplayServers.ScanDuplicates | src/ui/ui_main.c:503-584 | The verdict and the listing are the duplicate scan of the old listing. |
| DisplayList.DisplayServers.ScanAt | src/ui/ui_main.c:505-583 | One pass of the scan, equal to its specification. |
| DisplayList.DisplayServers.EvictServer | src/ui/ui_main.c:570 | The listing becomes the eviction of the entry. (Also lines 578-582.) |
| DisplayList.DisplayServers.BinarySearch | src/ui/ui_main.c:602-641 | The loop returns the search position of the specification over the live servers. |
| DisplayList.DisplayServers.BinaryServerInsertion | src/ui/ui_main.c:602-641 | The verdict and the listing are the binary insertion of the server; the overflow result is exactly `BinaryInsertOverflows`. |
| DisplayList.RemoveFirstDupClients | src/ui/ui_main.c:578-582 | Removing one listed server takes exactly its evicted clients off the duplicate client total of the list. |
| DisplayList.EvictLive | src/ui/ui_main.c:578-582 | Evicting entry i removes the first occurrence of its server from the live servers, where it was listed. |
| DisplayList.SpliceMultiset | src/ui/ui_main.c:589-592 | Splicing a server in adds exactly that server to the live servers. |
| Browser.BuildStep | src/ui/ui_main.c:1205-1216 | One pass keeps the listing well formed, adds at most one server, and leaves the refresh fields alone. |
| Browser.TakeStep | src/ui/ui_main.c:1218-1241 | A visible server's pass adds at most one server. |
| Browser.AdmitStep | src/ui/ui_main.c:1243-1255 | An admitted server's pass adds at most one server. |
| Browser.ListStep | src/ui/ui_main.c:1243-1255 | Listing always runs the binary insertion, with its duplicate scan, on the list (after removing a favourite); the overflow flag is set exactly when that insertion overflows, never when there was room for `n + 2` before; at most one server is added and the player total is kept. |
| Browser.BuildLoop | src/ui/ui_main.c:1205-1257 | The loop adds at most one server per registry entry and leaves the refresh fields alone. |
| Browser.BuildSpec | src/ui/ui_main.c:1151-1268 | A build keeps the listing well formed and lists at most as many servers as the registry holds, plus the ones kept when not reset. |
| Browser.BuildStepPlayers | src/ui/ui_main.c:1205-1221 | A pass adds the clients of a visible server that has a ping (or is a favourite), and marks at most that server. |
| Browser.BuildLoopPlayers | src/ui/ui_main.c:1205-1257 | The loop adds the clients of every visible server it reaches with a ping; it marks only servers in its range. |
| Browser.PlayersFromIgnoresBelow | src/ui/ui_main.c:1205-1221 | The player total from an index on depends only on the visibility of the servers from that index on. |
| Browser.BuildShortcuts | src/ui/ui_main.c:1157-1196 | A build that is not due changes nothing; one that finds the master server still pending empties the list and retries 500 ms later; the motd width is reset exactly when the motd length changes. |
| Browser.ForcedBuildCountsPlayers | src/ui/ui_main.c:1161-1268 | A forced build recounts the players from scratch and stamps the refresh time. |
| Browser.StopReports | src/ui/ui_main.c:1275-1299 | Stopping ends the refresh and reports exactly when one was active; the report gives the listed servers, the players less the duplicates' clients, and the unlisted servers exactly when there are some. |
| Browser.RefreshSpec | src/ui/ui_main.c:1306-1346 | A refresh keeps the listing well formed. |
| Browser.RefreshEnds | src/ui/ui_main.c:1306-1346 | With no pings pending and the master answered, an active refresh ends; while pings are pending it stays active. |
| Browser.StartRefreshes | src/ui/ui_main.c:1353-1414 | A partial refresh only re-pings; a full one empties the list and counters, makes every server visible, issues the query of its source, and schedules the next build 1 s later. |
| Browser.InsertByRank | src/ui/ui_main.c:2799-2810 | Insertion by rank adds exactly the server. |
| Browser.SortByRank | src/ui/ui_main.c:2799-2810 | Sorting by rank is a permutation. |
| Browser.InsertByRankSorted | src/ui/ui_main.c:2799-2810 | Insertion by rank keeps a sorted list sorted. |
| Browser.SortByRankSorts | src/ui/ui_main.c:2799-2810 | Sorting by rank yields a sorted permutation. |
| Browser.ServerBrowser.State | src/ui/ui_main.c:1151-1414 | The abstract browser status holds a well-formed display listing of the array's size. |
| Browser.ServerBrowser.constructor | src/ui/ui_main.c:1151-1414 | An empty browser with a zeroed display array. |
| Browser.ServerBrowser.BuildServer | src/ui/ui_main.c:1205-1216 | The state becomes one build step of the old state. |
| Browser.ServerBrowser.TakeServer | src/ui/ui_main.c:1218-1241 | The state becomes the pass over a visible server. |
| Browser.ServerBrowser.AdmitServer | src/ui/ui_main.c:1243-1255 | The state becomes the pass over an admitted server. |
| Browser.ServerBrowser.ListServer | src/ui/ui_main.c:1243-1255 | The state becomes the listing of the server, overflow flag included. |
| Browser.ServerBrowser.InsertListed | src/ui/ui_main.c:1243-1248 | The state becomes the removal of a favourite followed by the binary insertion, with the overflow flag set exactly when that insertion overflows. |
| Browser.ServerBrowser.ClearCounts | src/ui/ui_main.c:1161-1167 | The count, the duplicate counters and the players are zeroed; nothing else changes. (Also lines 1192-1199.) |
| Browser.ServerBrowser.BuildServerDisplayList | src/ui/ui_main.c:1151-1268 | The state becomes the build specification of the old state. |
| Browser.ServerBrowser.Prepare | src/ui/ui_main.c:1157-1187 | The state becomes the motd bookkeeping and reset of a due build. |
| Browser.ServerBrowser.BuildAll | src/ui/ui_main.c:1205-1257 | The state becomes the build loop of the old state. |
| Browser.ServerBrowser.StopServerRefresh | src/ui/ui_main.c:1275-1299 | The state and report are the stop specification of the old state. |
| Browser.ServerBrowser.DoServerRefresh | src/ui/ui_main.c:1306-1346 | The state becomes the refresh specification of the old state. |
| Browser.ServerBrowser.UpdatePendingPings | src/ui/ui_main.c:1353-1358 | Pings are reset, the refresh becomes active, and it ends 1 s later. |
| Browser.ServerBrowser.ClearForRefresh | src/ui/ui_main.c:1365-1385 | The reset a full refresh starts with. |
| Browser.ServerBrowser.StartServerRefresh | src/ui/ui_main.c:1365-1414 | The state becomes the start specification of the old state. |
| Browser.ServerBrowser.ServersSort | src/ui/ui_main.c:2799-2810 | Nothing when the column is already the sort key and not forced; otherwise the sort key is the column and the live servers become their sorted permutation by rank. |
| Browser.Unmarked | src/ui/ui_main.c:1205-1216 | The registry entries from i on that are not yet marked invisible are at most the entries left. |
| Browser.UnmarkedShrinks | src/ui/ui_main.c:1205-1216 | More marks leave no more unmarked entries. |
| Browser.UnmarkedNone | src/ui/ui_main.c:1205-1216 | With no marks, every entry from i on is unmarked. |
| Browser.BuildLoopRoom | src/ui/ui_main.c:1205-1257 | With a slot for every unmarked entry plus one, the loop never overflows. It lists at most that many more servers and only adds marks. |
| Browser.BuildRoom | src/ui/ui_main.c:1151-1268 | A build with room never overflows. It lists at most the kept servers plus the unmarked entries. |
| Browser.ResettingBuildFits | src/ui/ui_main.c:1161-1167 | For a resetting build, the room needed is one slot per registry entry plus one. |
| Browser.RefreshRoom | src/ui/ui_main.c:1306-1346 | A refresh with room for its two builds never overflows. |
| Browser.Prepared | src/ui/ui_main.c:1157-1187 | The motd length is recorded. A resetting build empties the list, the player total and the marks; any other keeps them. The refresh flag and the overflow flag are kept. |
| Browser.StopSpec | src/ui/ui_main.c:1275-1299 | Afterwards no refresh is active, and the listing, players and marks are kept. There is a report exactly when a refresh was active. |
| Browser.PendingSpec | src/ui/ui_main.c:1353-1358 | The pings are reset once more, the refresh is active and ends after the current time, and the listing is kept. |
| Browser.StartSpec | src/ui/ui_main.c:1365-1414 | The refresh is active with a later deadline and one more ping reset. A partial refresh keeps the listing and the commands; a full one empties the list and the marks and only appends commands. |
| Browser.Cleared | src/ui/ui_main.c:1381-1391 | The refresh is active; the list, the players and the marks are empty; the array, the commands, the sort key and the overflow flag are kept. |
| Browser.MasterQuery | src/ui/ui_main.c:1393-1413 | At most one command, and none exactly for favourites. |
| Browser.ConsSorted | src/ui/ui_main.c:2799-2810 | A server ranked at most every server of a sorted list keeps it sorted when put first. |
| Browser.TailSorted | src/ui/ui_main.c:2799-2810 | The tail of a sorted list is sorted, and its head ranks at most every server of it. |
| Browser.RankedBelowInsert | src/ui/ui_main.c:2799-2810 | A rank at most the inserted server's and every listed one's is at most every rank after insertion. |
| StatusInfo.StrCmp | src/ui/ui_main.c:658-664 | `strcmp` of the keys: -1, 0 or 1, and 0 exactly when the keys are equal. |
| StatusInfo.StrCmpAntisymmetric | src/ui/ui_main.c:658-664 | Swapping the arguments negates the comparison. |
| StatusInfo.StrCmpTransitive | src/ui/ui_main.c:658-664 | The comparison's "at most" is transitive, so it is an order `qsort` can use. |
| StatusInfo.SameIgnoringCaseIsLower | src/ui/ui_main.c:680 | The `Q_stricmp` test equals comparing the lower-cased keys. |
| StatusInfo.OwnerFrom | src/ui/ui_main.c:649-650 | The first table entry from e on that shows a key, or the table's end; it never lies before e. (Also lines 673-697.) |
| StatusInfo.ApartFolds | src/ui/ui_main.c:649-650 | Two keys that differ case-insensitively have different lower-case forms. |
| StatusInfo.TableApart | src/ui/ui_main.c:649-650 | The table names are pairwise distinct ignoring case, no replacement name clashes with a table name, and the replacement names are distinct. |
| StatusInfo.OwnerFromIs | src/ui/ui_main.c:649-650 | A key shown by entry o and by no entry between e and o is owned by o. (Also lines 673-697.) |
| StatusInfo.ShownKeyFacts | src/ui/ui_main.c:680-692 | The key a swap leaves at the front is owned by its entry and matches no other entry's name. |
| StatusInfo.Swapped | src/ui/ui_main.c:682-692 | The swap of rows index and j, with the replacement name, keeps the row count. |
| StatusInfo.ScanEntry | src/ui/ui_main.c:675-696 | One entry's pass over the rows keeps the row count and advances the front index within the rows. |
| StatusInfo.SelectFrom | src/ui/ui_main.c:673-697 | The table loop keeps the row count and advances the front index within the rows. |
| StatusInfo.SettledHere | src/ui/ui_main.c:675-696 | No row before the front index matches the entry about to be scanned. |
| StatusInfo.Selected | src/ui/ui_main.c:673-697 | The whole table loop keeps the row count and leaves the front index within it. |
| StatusInfo.InsertByKey | src/ui/ui_main.c:700 | Insertion by key adds exactly the row. |
| StatusInfo.SortByKey | src/ui/ui_main.c:700 | The sort by `strcmp` of the keys is a permutation. |
| StatusInfo.SortSpec | src/ui/ui_main.c:666-701 | `UI_SortServerStatusInfo` keeps the row count. Order and origin are stated by `StatusInfo.SortSpecMeaning` and `StatusOrigin.SortSpecSources`. |
| StatusInfo.SortedCons | src/ui/ui_main.c:700 | A row with a key at most every key of a sorted list keeps the list sorted when put first. |
| StatusInfo.InsertByKeySorted | src/ui/ui_main.c:700 | Insertion by key keeps a sorted list sorted. |
| StatusInfo.SortByKeySorts | src/ui/ui_main.c:700 | The sort by key yields a sorted list. |
| StatusInfo.ScanEntrySettles | src/ui/ui_main.c:675-696 | After an entry's pass, no row before the new front index matches that entry or an earlier one. |
| StatusInfo.ScanEntryOrders | src/ui/ui_main.c:675-696 | An entry's pass keeps the front rows owned in table order. |
| StatusInfo.SwapOrders | src/ui/ui_main.c:682-694 | A swap that brings an entry's row to the front keeps the front owned in table order. |
| StatusInfo.ScanEntryClears | src/ui/ui_main.c:675-696 | After an entry's pass, the rows stay cvar rows and no row past the front matches that entry or an earlier one. |
| StatusInfo.SwapThenClears | src/ui/ui_main.c:682-696 | The same after the pass swaps a row. |
| StatusInfo.RestClearExtends | src/ui/ui_main.c:673-697 | Rows past the front that match no entry below e, and not e either, match no entry up to e. |
| StatusInfo.SwapClears | src/ui/ui_main.c:682-694 | A swap keeps the rows cvar rows and the rest free of earlier entries, and the pass continues after it from the next row. |
| StatusInfo.FrontOwnedWeakens | src/ui/ui_main.c:673-697 | A front owned below a bound is owned below any larger bound. |
| StatusInfo.SelectFromOrders | src/ui/ui_main.c:673-697 | The table loop leaves the front rows owned by table entries in table order. |
| StatusInfo.SelectFromClears | src/ui/ui_main.c:673-697 | The table loop leaves no row past the front that matches a table entry. |
| StatusInfo.SortSpecMeaning | src/ui/ui_main.c:666-701 | The sorted rows have the same length; the front rows are the known keys in table order; the rest is sorted by `strcmp` and a permutation of the rows the loop left there. |
| StatusInfo.SortSpecLeavesNoKnownKey | src/ui/ui_main.c:666-701 | For cvar rows, no row past the front has a key that a table name matches. |
| StatusInfo.BeforeNul | src/ui/ui_main.c:740 | The C string in a buffer: a NUL-free prefix that stops at the first NUL. (Also line 754.) |
| StatusInfo.Find | src/ui/ui_main.c:735 | `strchr`: a found index lies at or after the start and holds the character. (Also lines 749, 794, 803, 826.) |
| StatusInfo.FindIsFirst | src/ui/ui_main.c:735 | The found index is the first occurrence from the start, and none means the character does not occur. (Also lines 749, 794, 803, 826.) |
| StatusInfo.UpTo | src/ui/ui_main.c:740 | The field cut at a character holds no occurrence of it. (Also line 754.) |
| StatusInfo.CvarStep | src/ui/ui_main.c:735-757 | One pass of the cvar loop: a stop is at a backslash or at the end; a row has empty score and ping and moves strictly forward. |
| StatusInfo.CvarFrom | src/ui/ui_main.c:735-757 | The same from the position after the `strchr`. |
| StatusInfo.CvarsFrom | src/ui/ui_main.c:733-761 | The cvar loop only appends rows, at most up to the capacity, each with empty score and ping, and leaves the cursor in the text. |
| StatusInfo.PlayerStep | src/ui/ui_main.c:786-832 | One pass of the player loop: a row's key is the player's number, and a continuation moves strictly forward. |
| StatusInfo.PlayerAt | src/ui/ui_main.c:792-832 | The same from the score field on. |
| StatusInfo.PlayersFrom | src/ui/ui_main.c:784-835 | The player loop only appends rows, at most up to the capacity. |
| StatusInfo.PlayersFromLabels | src/ui/ui_main.c:812-814 | The player rows are labelled "0", "1", … in order. |
| StatusInfo.LabelsExtend | src/ui/ui_main.c:812-814 | A labelled row followed by rows labelled from the next number gives rows labelled in order. |
| StatusInfo.StatusSpecPhases | src/ui/ui_main.c:708-842 | The table is the sorted address and cvar rows, then, if they leave room for 3 more, the blank and header rows and the player rows. |
| StatusInfo.StatusShape | src/ui/ui_main.c:708-842 | Between 1 row and the capacity; the cvar phase starts with the Address row and holds only cvar rows; the blank and header rows follow exactly when the cvar rows leave room for 3 more, and the rows after them carry the player numbers 0, 1, …; otherwise there are only the cvar rows. |
| StatusInfo.CvarRowsOf | src/ui/ui_main.c:745-757 | One row per cvar pair. |
| StatusInfo.PlayerRowsOf | src/ui/ui_main.c:812-821 | One row per player. |
| StatusInfo.FindPast | src/ui/ui_main.c:735 | `strchr` past a field free of the character finds the character right after the field, or nothing at the end. (Also line 749.) |
| StatusInfo.Split | src/ui/ui_main.c:733-761 | A slice holding x + y splits into x then y. |
| StatusInfo.PairParts | src/ui/ui_main.c:733-761 | A rendered `\key\value` pair has its backslashes, key and value at the expected places. |
| StatusInfo.CvarStepAt | src/ui/ui_main.c:735-757 | With the next two backslashes at b and w, the pass reads the key before b and the value before w. |
| StatusInfo.CvarStepSame | src/ui/ui_main.c:735-757 | Two positions with the same next backslash give the same pass. |
| StatusInfo.CvarsFromSkipsValue | src/ui/ui_main.c:733-761 | The loop from inside a value equals the loop from the backslash that ends it. |
| StatusInfo.CvarStepReads | src/ui/ui_main.c:735-757 | On a rendered pair, the pass reads its key and value and the value ends at the next backslash. |
| StatusInfo.CvarsPairStep | src/ui/ui_main.c:733-761 | On a rendered pair, the loop takes the pair's row and continues after its value. |
| StatusInfo.CvarsFromTakes | src/ui/ui_main.c:733-761 | A pass that takes a row continues the loop from its next position. |
| StatusInfo.CvarsRoundTrip | src/ui/ui_main.c:733-761 | Parsing rendered cvar pairs that fit gives back exactly their rows. |
| StatusInfo.CvarsEnd | src/ui/ui_main.c:742-743 | At the doubled backslash before the players, the cvar loop stops, leaving the cursor on the players when there are any. |
| StatusInfo.CvarsFromUnfolds | src/ui/ui_main.c:733-761 | The cvar loop is one pass followed by the loop from its next position. |
| StatusInfo.PlayersFromUnfolds | src/ui/ui_main.c:784-835 | The player loop is one pass followed by the loop from its next position. |
| StatusInfo.PlayersFromTakes | src/ui/ui_main.c:784-835 | A pass that takes a row ends the loop or continues it with the next number. |
| StatusInfo.CvarRowsCons | src/ui/ui_main.c:745-757 | The rows of a pair list are the first pair's row then the rest's rows. |
| StatusInfo.PlayerRowsCons | src/ui/ui_main.c:812-821 | The rows of a player list are the first player's row then the rest's rows. |
| StatusInfo.PlayerAtFields | src/ui/ui_main.c:792-832 | With spaces at a and b and the next backslash at e, the row holds the score before a, the ping before b and the name before e. |
| StatusInfo.EntryParts | src/ui/ui_main.c:792-810 | A rendered `score ping name` line has its spaces and fields at the expected places. |
| StatusInfo.PlayerStepReads | src/ui/ui_main.c:786-832 | On a rendered player line, the pass reads that player's row. |
| StatusInfo.PlayerAtReads | src/ui/ui_main.c:792-832 | The same from the score field on. |
| StatusInfo.PlayersSplit | src/ui/ui_main.c:784-835 | The players' text is the first line then a backslash and the rest. |
| StatusInfo.PlayersRoundTrip | src/ui/ui_main.c:784-835 | Parsing rendered players that fit gives back exactly their rows, numbered from i. |
| StatusInfo.PlayerStepSkips | src/ui/ui_main.c:786-787 | A pass at a single backslash equals the pass after it. |
| StatusInfo.PlayersFromSkips | src/ui/ui_main.c:786-787 | The loop at a single backslash equals the loop after it. |
| StatusInfo.ReplyCvarParts | src/ui/ui_main.c:733-761 | A reply is its cvar text, a backslash and its player text. |
| StatusInfo.ReplyPlayerParts | src/ui/ui_main.c:784-835 | The player text of a reply starts after the doubled backslash. |
| StatusInfo.CvarPhaseOfReply | src/ui/ui_main.c:724-761 | On a well-formed reply, the cvar phase gives the Address row then the pairs' rows, and leaves the cursor on the players. |
| StatusInfo.StatusSpecPlayers | src/ui/ui_main.c:766-835 | When the cvar rows leave room for 3 more, the table is the sorted cvar rows, the blank and header rows, then the player loop from the cursor. |
| StatusInfo.StatusRoundTrip | src/ui/ui_main.c:708-842 | Parsing a well-formed reply that fits gives the sorted Address and cvar rows, then the blank and header rows, then exactly the players' rows. |
| StatusInfo.PlayersOfReply | src/ui/ui_main.c:784-835 | The player loop over a well-formed reply gives exactly its players' rows. |
| StatusInfo.ServerStatusInfo.Listed | src/ui/ui_main.c:708-842 | The rows the table holds, as many as `numLines`. |
| StatusInfo.ServerStatusInfo.constructor | src/ui/ui_main.c:719 | An empty table with an empty address. |
| StatusInfo.ServerStatusInfo.SortServerStatusInfo | src/ui/ui_main.c:666-701 | The rows become the sort specification of the old rows; the slots past them are untouched. |
| StatusInfo.ServerStatusInfo.MoveCvarsToFront | src/ui/ui_main.c:671-697 | The rows and the returned index become the cvar selection of the old rows: the listed cvars moved to the front in table order. |
| StatusInfo.ServerStatusInfo.SortRemaining | src/ui/ui_main.c:699-700 | The rows from the index on become their key-sorted version; the rows before it and the slots past the count are kept. |
| StatusInfo.ServerStatusInfo.MoveCvarRows | src/ui/ui_main.c:675-696 | One entry's pass of the table loop, proved equal to its specification. |
| StatusInfo.ServerStatusInfo.GetServerStatusInfo | src/ui/ui_main.c:708-842 | Succeeds exactly when a reply is there; the address is the truncated server address; the rows are the status specification of the reply, or none. |
| StatusInfo.ServerStatusInfo.AddPlayers | src/ui/ui_main.c:766-836 | When the rows leave room for 3 more, appends the blank and header rows and the player rows; otherwise nothing. |
| StatusInfo.ServerStatusInfo.ReadCvars | src/ui/ui_main.c:733-761 | The rows become the cvar loop of the reply. |
| StatusInfo.ServerStatusInfo.ReadPlayers | src/ui/ui_main.c:784-835 | The rows become the player loop of the reply. |
| StatusInfo.OrdersStep | src/ui/ui_main.c:675-696 | One entry's pass keeps the front settled and owned in table order, and the table loop continues from its result. |
| StatusInfo.CvarPhase | src/ui/ui_main.c:724-761 | The cvar phase starts with the Address row and stays within the capacity; its cursor stays inside the text. |
| StatusInfo.StatusSpec | src/ui/ui_main.c:708-842 | The table holds at least the cvar phase's rows and at most the capacity. |
| StatusInfo.StatusRowCount | src/ui/ui_main.c:708-842 | The table holds between 1 row and the capacity. |
| StatusInfo.StatusTail | src/ui/ui_main.c:766-835 | When the cvar rows leave room for 3 more, a blank row and the header row follow them, and the player rows are labelled 0, 1, … in order. Otherwise nothing follows them. |
| StatusInfo.CvarPhaseShape | src/ui/ui_main.c:724-761 | The cvar phase has between 1 row and the capacity, starts with the Address row, and holds only cvar rows; its cursor stays inside the text. |
| StatusInfo.PlayersAfterHeader | src/ui/ui_main.c:766-835 | After the blank and header rows, the player rows are labelled 0, 1, … in order. |
| StatusInfo.CvarsRoundStep | src/ui/ui_main.c:733-761 | On a rendered pair, the loop takes its row and continues after its value, on the text of the remaining pairs. |
| StatusInfo.PlayersRoundStep | src/ui/ui_main.c:784-835 | On a rendered player, the loop takes its row, numbered i. It ends there or continues on the next player, numbered i + 1. |
| StatusInfo.StatusOfReply | src/ui/ui_main.c:708-842 | For a well-formed reply that fits: the sorted Address and cvar rows, then the blank and header rows, then the players' rows numbered from 0. |
| StatusInfo.PlayersAfterSorted | src/ui/ui_main.c:766-835 | After the sorted rows and the header, the player loop over a reply's player text gives exactly its players' rows. |
| StatusInfo.PlayersAfterBackslash | src/ui/ui_main.c:786-787 | The player loop at the backslash before the players gives exactly their rows. |
| StatusInfo.SortSpecOf | src/ui/ui_main.c:666-701 | The sort specification is the selected front followed by the key sort of the rest. |
| StatusInfo.CopyRows | src/ui/ui_main.c:699-700 | The array holds the given rows from index `from` on; every other entry is kept. |
| StatusInfo.ServerStatusInfo.AppendRow | src/ui/ui_main.c:745-757 | The next free row holds the new row and the count grows by one; the rows before it are kept. (Also lines 812-821.) |
| StatusOrigin.Unmatched | src/ui/ui_main.c:673-697 | The rows that no table entry matches, in order; no more than the input. |
| StatusOrigin.UnmatchedCounts | src/ui/ui_main.c:673-697 | An unmatched row occurs among them as often as in the input; a matched row does not occur. |
| StatusOrigin.UnmatchedOfSameRows | src/ui/ui_main.c:673-697 | Inputs with the same rows have the same unmatched rows. |
| StatusOrigin.UnmatchedSkipsClaimed | src/ui/ui_main.c:673-697 | Matched rows in front add no unmatched rows. |
| StatusOrigin.UnmatchedKeepsUnclaimed | src/ui/ui_main.c:673-697 | A list of unmatched rows is its own unmatched part. |
| StatusOrigin.Image | src/ui/ui_main.c:673-697 | The rows at the listed indices, one per index. |
| StatusOrigin.Swap | src/ui/ui_main.c:682-694 | Swapping exchanges two entries and keeps the rest. |
| StatusOrigin.SwapMultiset | src/ui/ui_main.c:682-694 | A swap keeps the rows. |
| StatusOrigin.SwapTraced | src/ui/ui_main.c:682-694 | A swap that brings a matching row to the front keeps every row traced to a distinct input row, the front rows renamed and the rest unchanged. |
| StatusOrigin.ScanEntryTraced | src/ui/ui_main.c:675-696 | An entry's pass keeps the rows traced to the input. |
| StatusOrigin.SelectStep | src/ui/ui_main.c:675-696 | One entry's pass keeps the front settled and the rows traced, and the table loop continues from its result. |
| StatusOrigin.SelectFromTraced | src/ui/ui_main.c:673-697 | The table loop keeps the rows traced to the input. |
| StatusOrigin.TracedRest | src/ui/ui_main.c:673-697 | Once no row behind the front matches, the rows behind it are the unmatched input rows, as a multiset. |
| StatusOrigin.TracedFront | src/ui/ui_main.c:673-697 | The front rows are renamed copies of distinct input rows. |
| StatusOrigin.SortSpecParts | src/ui/ui_main.c:666-701 | The sorted rows are the selected front, then the key sort of the rest. |
| StatusOrigin.SortSpecSources | src/ui/ui_main.c:666-701 | Each front row of the sorted table is a distinct input row, renamed by the entry that matched it. The rest are exactly the unmatched input rows, and front and rest together account for every input row. |
| FindPlayer.CopyZ | src/ui/ui_main.c:944 | `Q_strncpyz`: at most `size - 1` characters of the C string, a prefix of it, without NUL. (Also lines 966-970.) |
| FindPlayer.CopyFits | src/ui/ui_main.c:944 | A C string that fits the buffer is copied whole. (Also lines 966-970.) |
| FindPlayer.NulFree | src/ui/ui_main.c:944 | A string without NUL is its own C string. |
| FindPlayer.SameUpToFits | src/ui/ui_main.c:952-953 | For strings that fit the buffer, `Q_strncmp(…, MAX_ADDRESSLENGTH) == 0` is equality. |
| FindPlayer.StristrFrom | src/ui/ui_main.c:849-866 | A result is a position where the query matches ignoring case. |
| FindPlayer.StristrFromFirst | src/ui/ui_main.c:849-866 | The scan from a position finds the first match from there. |
| FindPlayer.StristrFirst | src/ui/ui_main.c:849-866 | `stristr` returns the first position where the query matches ignoring case, and NULL exactly when there is none. |
| FindPlayer.StristrEmpty | src/ui/ui_main.c:849-866 | An empty query matches at 0 in a non-empty string, and nowhere in an empty one. |
| FindPlayer.StrStrFrom | src/ui/ui_main.c:1100 | A `strstr` result is a position where the key occurs. |
| FindPlayer.StrStrFromFinds | src/ui/ui_main.c:1100 | `strstr` finds an occurrence whenever there is one. |
| FindPlayer.StrStrContains | src/ui/ui_main.c:1100 | `strstr` succeeds exactly when the key occurs. |
| FindPlayer.MatchingFrom | src/ui/ui_main.c:1096-1104 | The matching indices are in range and at most `max`. |
| FindPlayer.MatchingFromHits | src/ui/ui_main.c:1096-1104 | Every listed index names a matching player, in increasing order. |
| FindPlayer.MatchingFromComplete | src/ui/ui_main.c:1096-1104 | When fewer than `max` are listed, every matching player is listed. |
| FindPlayer.MatchingFromSkip | src/ui/ui_main.c:1096-1104 | A non-matching name is skipped. |
| FindPlayer.MatchingFromPush | src/ui/ui_main.c:1096-1104 | A matching name is listed and the room shrinks by one. |
| FindPlayer.ClientNumbersMeaning | src/ui/ui_main.c:1067-1107 | For any input: ascending and at most `max`. None for `max == 0` or an empty cleaned query; for an empty `s`, players 0, 1, … up to `max` or the player count; otherwise each number names a player whose cleaned, lower-cased name contains the query, and every such player is reported when fewer than `max` are. |
| FindPlayer.ClientNumbersFromString | src/ui/ui_main.c:1067-1107 | The method writes exactly the client numbers of the specification into `plist` and returns their count. |
| FindPlayer.ListAll | src/ui/ui_main.c:1080-1086 | Lists 0, 1, … up to the player count or `max`. |
| FindPlayer.ListMatching | src/ui/ui_main.c:1096-1106 | Lists the matching indices of the specification. |
| FindPlayer.ListName | src/ui/ui_main.c:1097-1103 | One name is listed exactly when it matches. |
| FindPlayer.AnyRowExists | src/ui/ui_main.c:936-979 | The row scan finds a hit exactly when some row is one. |
| FindPlayer.HeaderRowMatches | src/ui/ui_main.c:940-958 | The header row of the status table is scanned as a player named "name", so a query contained in "name" is a hit. |
| FindPlayer.ResendTime | src/ui/ui_main.c:905-908 | The resend time is at least 50, and is half the timeout less 10 once that is 50 or more. |
| FindPlayer.AddFoundKeeps | src/ui/ui_main.c:948-978 | Adding a server keeps the found list distinct and fitting, extends it, and adds one line exactly when the server is new and there is room; a new hit that finds the list full (`MAX_FOUNDPLAYER_SERVERS - 1`) moves the cursor to the end of the display list, and otherwise the cursor stays. |
| FindPlayer.AddFoundAgain | src/ui/ui_main.c:948-978 | Scanning the same server again adds nothing. |
| FindPlayer.Relabel | src/ui/ui_main.c:981-983 | Rewriting the label line changes only that line. (Also lines 1018-1020.) |
| FindPlayer.Assigned | src/ui/ui_main.c:1005-1017 | The slot a display entry gets is valid, stamped with the current time, and its address fits. |
| FindPlayer.FindPlayerSearch.constructor | src/ui/ui_main.c:875-1054 | Empty slots, an empty found list, zero counters. |
| FindPlayer.FindPlayerSearch.Duplicate | src/ui/ui_main.c:948-955 | The address is a duplicate exactly when it is in the found list. |
| FindPlayer.FindPlayerSearch.NoteHit | src/ui/ui_main.c:958-978 | The found lines become the addition of the server. |
| FindPlayer.FindPlayerSearch.ScanStatus | src/ui/ui_main.c:936-979 | The found lines become the addition of the server when some row is a hit. |
| FindPlayer.FindPlayerSearch.PollSlot | src/ui/ui_main.c:926-987 | A slot without an answer is untouched; an answered one is scanned, relabelled and freed; the found list only grows. |
| FindPlayer.FindPlayerSearch.FreeSlot | src/ui/ui_main.c:985 | Only the slot's valid flag changes. (Also line 1000.) |
| FindPlayer.FindPlayerSearch.CountStatus | src/ui/ui_main.c:933-983 | One more server answered, and the found lines are the addition then the "searching %d/%d..." label. |
| FindPlayer.FindPlayerSearch.ReclaimSlot | src/ui/ui_main.c:990-1022 | A free or timed-out slot is reset and given the next server when one is left; timeouts are counted only for a valid slot. |
| FindPlayer.FindPlayerSearch.AssignNext | src/ui/ui_main.c:1003-1021 | The slot takes the next display entry, the cursor advances, and the label is rewritten. |
| FindPlayer.FindPlayerSearch.FinishSearch | src/ui/ui_main.c:1025-1053 | Poll again in 25 ms while a slot is waiting; otherwise write the summary line and stop polling. |
| FindPlayer.FindPlayerSearch.ClearSlots | src/ui/ui_main.c:891 | Every slot becomes empty. |
| FindPlayer.FindPlayerSearch.ResetSearch | src/ui/ui_main.c:889-920 | The slots are cleared and the query is the cleaned `ui_findPlayer`; an empty query stops polling with no found lines; otherwise the found list holds only the "searching %d..." label and the resend time is set. |
| FindPlayer.FindPlayerSearch.BuildFindPlayerList | src/ui/ui_main.c:875-1054 | An unforced call before its time does nothing; a run keeps the cursor monotone and within the display list and only extends the found list; it polls again in 25 ms while a slot waits, or writes the summary line. |
| FindPlayer.FindPlayerSearch.PollAll | src/ui/ui_main.c:922-1023 | The slot loop keeps the cursor monotone and within the display list, and only extends the found list. |
| FindPlayer.Stristr | src/ui/ui_main.c:849-866 | A result is a position where the query fits and matches ignoring case. |
| FindPlayer.StrStr | src/ui/ui_main.c:1100 | A result is a position where the key occurs; the empty key occurs at 0. |
| FindPlayer.ClientNumbers | src/ui/ui_main.c:1067-1107 | At most `max` client numbers (none for a negative `max`), each the index of a player. |
| FindPlayer.Searching | src/ui/ui_main.c:981-983 | The label fits the buffer and is a prefix of "searching found/num...". (Also lines 1018-1020.) |
| FindPlayer.Summary | src/ui/ui_main.c:1044-1047 | The summary fits the address buffer and is a prefix of "n server(s) found with player q". |
| FindPlayer.AddFound | src/ui/ui_main.c:948-978 | The buffers keep their sizes. The found count grows by at most one and stays below the buffer count. A miss changes nothing. A new line holds the server's address and name at the previous last slot. |
| UiFormat.MulBelow | src/ui/ui_main.c:5324-5336 | A multiple of u strictly between -u and u is 0. |
| UiFormat.DivUnique | src/ui/ui_main.c:5324-5336 | The quotient of an exact division is unique. |
| UiFormat.DividesCombination | src/ui/ui_main.c:5324-5336 | A common divisor of x and y divides x - y*q. |
| UiFormat.StepKeepsDivisors | src/ui/ui_main.c:5324-5336 | One Euclid step (with C's remainder) keeps exactly the same common divisors. |
| UiFormat.EuclidGcdIsGreatest | src/ui/ui_main.c:5324-5336 | Euclid's result divides both numbers and is divisible by every common divisor. |
| UiFormat.GCD | src/ui/ui_main.c:5324-5336 | The loop returns Euclid's greatest common divisor. |
| UiFormat.GcdZero | src/ui/ui_main.c:5324-5336 | The result is 0 only for two zeros. |
| UiFormat.ExactQuotient | src/ui/ui_main.c:5343-5347 | Dividing by a divisor is exact. |
| UiFormat.AspectRatioCorrect | src/ui/ui_main.c:5338-5353 | The printed ratio equals width:height; it is in lowest terms except that 8:5 is printed as 16:10. |
| UiFormat.CrossProduct | src/ui/ui_main.c:5343-5350 | Dividing both sides by their divisor keeps the ratio, and so does printing 8:5 as 16:10. |
| UiFormat.GcdQuotients | src/ui/ui_main.c:5343-5347 | The divisor is non-zero, divides both sides exactly, and leaves coprime quotients. |
| UiFormat.CoprimeQuotients | src/ui/ui_main.c:5343-5347 | The quotients by the divisor are coprime. |
| UiFormat.UnitFactor | src/ui/ui_main.c:5343-5347 | A factor d with g = (d*g)*m is 1 or -1. |
| UiFormat.AspectExamples | src/ui/ui_main.c:5338-5353 | 1920x1200 prints 16:10 and 1920x1080 prints 16:9. |
| UiFormat.Wrap32 | src/ui/ui_main.c:6126-6127 | The 32-bit signed wrap of an integer lies in the int range and agrees with it modulo 2^32. |
| UiFormat.HundredthsTruncate | src/ui/ui_main.c:6123-6142 | The whole units and the two decimals (0..99) of the corrected text together make the hundredths of the size, truncated. |
| UiFormat.ReadableSizeMeaning | src/ui/ui_main.c:6121-6143 | Above 1 GiB and above 1 MiB the corrected text is `h/100 "." h%100` (two digits) and the unit, with h the hundredths of the size in that unit, truncated; above 1 KiB it is whole KB; otherwise bytes. |
| UiFormat.ReadableSizeAgreesBelowWrap | src/ui/ui_main.c:6121-6143 | The code as written agrees with the corrected text below the overflow point. |
| UiFormat.ReadableSizeWraps | src/ui/ui_main.c:6126-6127 | As written, 1.5 GiB prints "1.-2 GB"; the corrected text is "1.50 GB". |
| UiFormat.TimeSplit | src/ui/ui_main.c:6146-6162 | With t the whole seconds (C division): hours and minutes exactly when t > 3600, with the minutes in 0..59 and the pair bracketing t; minutes and seconds exactly when 60 < t <= 3600, recomposing t; otherwise the seconds t itself. |
| UiFormat.WithoutNewlines | src/ui/ui_main.c:6487-6513 | The text with its newlines removed holds none. |
| UiFormat.NewsFromBounds | src/ui/ui_main.c:6487-6513 | The splitter produces between 1 and the limit of lines, each shorter than the width and free of newlines. |
| UiFormat.WithoutNewlinesCons | src/ui/ui_main.c:6487-6513 | Removing newlines distributes over the first character. |
| UiFormat.NewsFromComplete | src/ui/ui_main.c:6487-6513 | For printable text that fills fewer lines than the limit, the lines joined are the text without its newlines. |
| UiFormat.NewsLinesCorrect | src/ui/ui_main.c:6487-6513 | Between 1 line and the limit, each shorter than the width and free of newlines; for printable text that fills fewer lines than the limit, the lines joined are the text without its newlines. |
| UiFormat.SplitNews | src/ui/ui_main.c:6487-6513 | The loop returns the lines of the specification. |
| UiFormat.AspectRatio | src/ui/ui_main.c:5343-5350 | The printed pair has the ratio of the width to the height. |
| UiFormat.RatioKept | src/ui/ui_main.c:5343-5347 | Dividing the width and the height by their GCD keeps the ratio. |
| UiFormat.DisplayAspectString | src/ui/ui_main.c:5338-5353 | The text is the ratio's width, a ':' and its height; `atoi` reads both back. |
| UiFormat.WithHundredths | src/ui/ui_main.c:6125-6126 | The text ends with a space and the unit. |
| UiFormat.ReadableSizeAsWritten | src/ui/ui_main.c:6121-6143 | As written, the unit is GB above 1 GiB, MB above 1 MiB, KB above 1 KiB, and bytes otherwise. |
| UiFormat.ReadableSize | src/ui/ui_main.c:6121-6143 | The same units for the corrected text. |
| UiFormat.HundredthsRange | src/ui/ui_main.c:6126-6127 | The hundredths of a remainder below the unit lie in 0..99. |
| UiFormat.ScaledSplit | src/ui/ui_main.c:6126-6127 | A hundred times the size is the unit times (100 times the whole units plus the hundredths), plus a remainder. |
| UiFormat.OneAndAHalfTexts | src/ui/ui_main.c:6125-6126 | 1 with hundredths -2 reads "1.-2 GB", and 1 with hundredths 50 reads "1.50 GB". |
| UiFormat.PrintTime | src/ui/ui_main.c:6146-6162 | The text ends in " min" above an hour, and in " sec" otherwise. |
| UiFormat.NewsFrom | src/ui/ui_main.c:6487-6513 | The splitter keeps the lines already done and adds at least one. |
| UiFormat.NewsLines | src/ui/ui_main.c:6487-6513 | The splitter gives at least one line. |

## Left out

- Drawing: colours, fonts, float screen positions, the renderer and
  sound are not modelled. `CG_DrawField` places a glyph at an integer slot
  offset, not a float `x`.
- `src/client/cl_scrn.cpp` and `src/client/cl_xhr.cpp` are not part of this
  model.
- Engine calls (`trap_*`, `trap_LAN_*`, `trap_Cvar_*`, `trap_RealTime`) are
  not modelled. Their results are inputs, and cvar writes are fields.
- `Info_ValueForKey`, `Q_CleanStr`, `Q_IsColorString`, `Q_stricmp` and
  `Q_StringToLower` are not modelled as code. `Info_ValueForKey` is replaced
  by the `Host` fields, `Q_CleanStr` and `Q_IsColorString` are parameters,
  and case folding is the C locale's.
- `JSON_ValueGetDouble` and `JSON_ValueGetFloat` are not modelled, because
  they parse floating point. `JSON_ValueGetInt` is modelled through the
  integer parse of `Atoi` on the value's text.
- `sscanf`/`atoi` overflow is not modelled: the integer parse is unbounded.
- `qsort` is modelled as an insertion sort. The model states that the
  result is a sorted permutation, not the order `qsort` gives equal keys.
- C integer overflow is not modelled except in `UI_ReadableSize`: ping sums,
  frame counters and server counts are unbounded.
- The header constants (`MAX_SERVERSTATUS_LINES`, `MAX_FOUNDPLAYER_SERVERS`,
  `MAX_SERVERSTATUSREQUESTS`, `MAX_ADDRESSLENGTH`, `MAX_HOSTNAME_LENGTH`,
  `MAX_NEWS_LINES`, `MAX_NEWS_LINEWIDTH`) are parameters, because their
  values are defined outside this model.
- The refresh and timeout logic of `UI_UpdateNews` and the text wrapping of
  the menu code are not modelled. Only the line splitter is.
- The `MODULE_INTERFACE_11` variant of the master query is not modelled.
  The default branch is.
- `UI_FeederSelection`, `Menu_SetFeederSelection`, the
  `ui_lastServerRefresh` cvars and console printing are not modelled. They
  only update the menu or the console.
- Menu parsing, tab completion, asset loading and the rest of
  `ui_main.c` and `cg_draw.c` are not modelled.
- Hud.QueueMessage: the `PMF_QUEUED` test at `cg_draw.c:3534-3535`, which
  draws nothing for a player who is not queued, is a flag of the player
  state and is left to the caller; the function models what follows it.
- FindPlayer.FindPlayerSearch.BuildFindPlayerList: does not state, as one
  property, that each display index is assigned to at most one slot per
  search. It follows from `AssignNext` taking index `num` and advancing the
  cursor, and from the cursor never moving back, both of which are proved.
- Browser.RefreshSpec: states only that the listing stays well formed. The
  remaining behaviour is given by `Browser.RefreshEnds` and by the
  definition.
- Json.ValueGetInt: states the 0/1 cases and the no-text case, not the
  value of a number. `sscanf("%d")` is modelled by `Atoi` in the
  definition.
- StatusInfo.SortSpec: its own contract gives only the row count. Order
  and origin are stated by `StatusInfo.SortSpecMeaning` and
  `StatusOrigin.SortSpecSources`.
- Browser.BuildFits: the room it asks for is enough, not the least. It
  counts every unmarked registry entry, including servers the filters will
  reject. `Browser.RefreshFits` does the same for the two builds of a
  refresh.
- Writes past `displayServers` are not modelled. When, after the
  duplicate scan, an insertion has no slot for its shift, the model keeps
  the scan's evictions and counters, sets `overflowed` and stores nothing,
  where the C writes past the array (`ui_main.c:586-592`).
- `Com_sprintf` truncation to `bufsize` in `UI_ReadableSize` and
  `UI_PrintTime` is not modelled (`ui_main.c:6121-6162`). The texts are
  given in full, because the callers' buffers are not part of this model.
- The `info == NULL` branch of `UI_GetServerStatusInfo`
  (`ui_main.c:713-717`) is not modelled. It only cancels the engine's
  request, which is an engine call.
- The bound on the player labels from the size of the pings buffer
  (`ui_main.c:812-814`) is not modelled. Labels are the full `%d` text.
- UiFormat.AspectRatio: requires a non-zero width or height. For 0x0 the C
  divides by the zero GCD (`ui_main.c:5340-5343`), which is undefined.

## Findings

| source | as written | input that shows it | evidently intended | confidence | as-written member | corrected member |
|---|---|---|---|---|---|---|
| src/ui/ui_main.c:6126-6127 | `(value % (1024*1024*1024)) * 100` is computed in 32-bit `int`, so the hundredths overflow once the remainder exceeds 21474836 bytes | `UI_ReadableSize` of 1610612736 bytes (1.5 GiB) prints "1.-2 GB" | "1.50 GB": the hundredths of the size in its unit | high, not executed | UiFormat.ReadableSizeWraps | UiFormat.ReadableSizeMeaning |
