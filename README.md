# xelt terminal core in Dafny

This project models the part of the xelt terminal emulator (a derivative of
st) that turns the bytes a program writes to its tty into changes to a grid
of character cells. That part lives in `src/xelt.c` and the helper macros of
`src/xelt_macroses.h`. The model covers:

- the UTF-8 codec (`utf8decode`, `utf8encode`, `utf8validate`, `utf8strchr`);
- the escape-sequence parsers `csiparse` and `strparse`, with the C library
  `strtol` and `atoi` they rely on;
- the interpreter `tputc` and its dispatchers `tcontrolcode`, `eschandle`,
  `csihandle`, `strhandle`, `tstrsequence`, `csireset` and `strreset`;
- the grid operations (`tmoveto`, `tmoveato`, `tsetscroll`, `tscrollup`,
  `tscrolldown`, `tnewline`, `tclearregion`, `tdeletechar`, `tinsertblank`,
  `tinsertblankline`, `tdeleteline`, `tsetchar`, `tsetdirt`, `tfulldirt`,
  `tresize`, `treset`, `tswapscreen`, `tcursor`, `tputtab`, `tdeftran`,
  `tdectest`) and the SGR and mode switches (`tsetattr`, `tdefcolor`,
  `tsetmode`);
- the selection (`selnormalize`, `selected`, `selsnap`, `selscroll`,
  `selclear`, `getsel`, `tlinelen`), the pixel-to-cell maps `x2col` and
  `y2row`, and the mouse reporter `mousereport`.

Layout, one module per file:

| file | module | what it holds |
|---|---|---|
| `utf8.dfy` | `Utf8` | byte classes, decode, encode, validate, strchr |
| `clib.dfy` | `CLib` | `strtol(s, &end, 10)` and `atoi` as section 7.22.1.4 of ISO/IEC 9899:2011 defines them for a 64-bit `long` |
| `macros.dfy` | `Macros` | the macros of `xelt_macroses.h` |
| `types.dfy` | `Types` | glyphs, cursor, selection record, flag sets, the effect log |
| `config.dfy` | `Config` | the `config.h` settings the core reads |
| `escape.dfy` | `Escape` | the CSI and STR records, their parsers, and the classes `CsiEscape` and `StrEscape` over the fixed buffers |
| `grid.dfy` | `Grid` | screens as rows of glyphs; row moves, cell moves, fills, resizing |
| `tabs.dfy` | `Tabs` | tab stops |
| `select.dfy` | `Select` | selection geometry, snapping, normalising, scrolling, text extraction |
| `edit.dfy` | `Edit` | the page (rows, dirty flags, selection) and the grid operations on it |
| `put.dfy` | `Put` | cell placement for a printed character |
| `sgr.dfy` | `Sgr` | `tdefcolor` and `tsetattr` |
| `modes.dfy` | `Modes` | the mode-flag part of `tsetmode` |
| `dispatch.dfy` | `Dispatch` | what a parsed CSI or STR sequence asks for |
| `term.dfy` | `Term` | the class `Terminal`, which holds the global `terminal` state, and its grid methods |
| `interp.dfy` | `Interp` | `tputc`, `tcontrolcode`, `eschandle`, `csihandle`, `strhandle`, `tsetmode` on a `Terminal` |
| `mouse.dfy` | `Mouse` | `mousereport` and its static state |

Representation choices:

- Bit masks such as `terminal.mode`, `glyph.mode`, `cursor.state` and
  `terminal.esc` are sets of named flags. `MODBIT` is a set update.
- A byte is an `int` in 0..255. A code point is an `int` in 0..2^32-1.
  Colours are `nat`.
- Rows are values (`seq<Glyph>`). A screen is a sequence of rows. Swapping
  two row pointers is exchanging two row values.
- Effects on the world outside the grid are appended to a log `out` of
  `Effect` values. These effects are writes to the tty (`ttywrite`), the
  printer (`tprinter`), the window title, colour names, redraws, cursor
  style and mode notifications.
- The character width from `wcwidth` is an argument of `PutC`. Whether the
  window accepted a colour name is an argument of the STR handlers.

## Model

| member | source | states |
|---|---|---|
| Macros.Min | src/xelt_macroses.h:4 | the result is one of the two arguments and no larger than either |
| Macros.Max | src/xelt_macroses.h:5 | the result is one of the two arguments and no smaller than either |
| Macros.Default | src/xelt_macroses.h:7 | only a zero first argument is replaced, and then by the second |
| Macros.Limit | src/xelt_macroses.h:14 | the result lies in [a, b] when a <= b; a value already in range is kept; one below a becomes a |
| Macros.CDiv | src/xelt_macroses.h:9 | C's truncating division expressed in Dafny's Euclidean division, for both signs of the dividend |
| Macros.DivCeilIsCeiling | src/xelt_macroses.h:9 | DIVCEIL(n, d) is the ceiling of n/d for n >= 0, d > 0 |
| Macros.ControlClasses | src/xelt_macroses.h:10-12 | C0 and C1 are disjoint; ISCONTROL holds exactly for 0x00-0x1F, 0x7F and 0x80-0x9F |
| Macros.ModBit | src/xelt_macroses.h:21 | setting puts every given bit in, clearing takes every given bit out, all other bits are kept |
| Macros.TrueColorChannels | src/xelt_macroses.h:23-27 | TRUECOLOR(r, g, b) is a true colour; TRUERED, TRUEGREEN and TRUEBLUE return r, g and b shifted left by 8 |
| Macros.PaletteIsNotTrueColor | src/xelt_macroses.h:24 | no palette index 0-255 is a true colour |
| Utf8.Payload | src/xelt.c:183-190 | the payload of a byte is below the room its class mask leaves |
| Utf8.MatchesRange | src/xelt.c:101-104 | a byte is in class i exactly when it lies in the range utfbyte[i] .. utfbyte[i] + the mask's complement, and its payload is the offset in it |
| Utf8.ByteClassIsFirstMatch | src/xelt.c:183-190 | utf8decodebyte returns the first class whose mask matches, with the byte's payload; no match gives class 5 and payload 0 |
| Utf8.DecodeByte | src/xelt.c:183-190 | the loop over the class table computes ByteClass |
| Utf8.EncodeByteClass | src/xelt.c:211-214 | decoding the byte utf8encodebyte builds for class i gives back class i and the payload (inverse pair) |
| Utf8.Validated | src/xelt.c:234-242 | utf8validate always yields a Unicode scalar value: out-of-range and surrogate values become U+FFFD |
| Utf8.LenOf | src/xelt.c:238-239 | the encoded length is 1-4 and the smallest class whose range holds the value |
| Utf8.Validate | src/xelt.c:234-242 | the loop computes Validated and LenOf |
| Utf8.EncodedAt | src/xelt.c:193-208 | the lead byte carries the high bits under the class prefix of the length; each continuation byte carries six bits, most significant first |
| Utf8.Encode | src/xelt.c:193-208 | utf8encode writes exactly Encoded(u) at the offset, returns its length and leaves every other byte of the buffer alone |
| Utf8.DecodeStep | src/xelt.c:176-178 | one continuation byte shifts the accumulator by six bits and adds its payload, within bounds |
| Utf8.Decode | src/xelt.c:158-180 | utf8decode's loops compute DecodeSpec |
| Utf8.DecodeSpec | src/xelt.c:158-180 | the decoded value is always a scalar value and the consumed length is at most the input and at most 4 |
| Utf8.DecodeEmpty | src/xelt.c:163-165 | empty input consumes nothing and yields U+FFFD |
| Utf8.DecodeBadLead | src/xelt.c:166-168 | a lead byte of no class (0x80-0xBF, 0xF8-0xFF) consumes one byte and yields U+FFFD |
| Utf8.DecodeInterrupted | src/xelt.c:169-173 | a non-continuation byte at index k inside the sequence yields U+FFFD and consumes k bytes |
| Utf8.DecodeTruncated | src/xelt.c:174-175 | a valid prefix shorter than its lead byte announces consumes nothing |
| Utf8.DecodeComplete | src/xelt.c:176-179 | a complete sequence consumes its full length; an overlong, surrogate or too-large value is replaced by U+FFFD |
| Utf8.RoundTrip | src/xelt.c:158-214 | for every scalar value, utf8encode writes LenOf(u) bytes and utf8decode on them, whatever follows, gives back u and that length |
| Utf8.DecodeTextCons | src/xelt.c:158-214 | reading a run of bytes that starts with the encoding of a scalar value gives that value, then what the rest of the run reads as |
| Utf8.DecodeEncodedAll | src/xelt.c:158-214 | encoding scalar values one after the other and reading the bytes back gives the same values in order |
| Utf8.EncodedAllJoin | src/xelt.c:193-208 | the encodings of two runs of code points, one after the other, are the encoding of the two runs joined |
| Utf8.StrChrStep | src/xelt.c:221-229 | one step of utf8strchr: the end of the string means not found, a match stops, otherwise the scan moves past the decoded character |
| Utf8.StrChrFound | src/xelt.c:217-231 | a found offset is a character start on utf8strchr's scan where the character searched for decodes, and no earlier offset on the scan holds it; -1 means no offset on the scan holds it |
| Utf8.StrChr | src/xelt.c:217-231 | the loop computes StrChrFrom: the first offset on the scan where the character decodes, or -1 when there is none |
| CLib.DigitsEnd | src/xelt.c:1320 | the run of decimal digits ends at the first non-digit or at the end |
| CLib.ClampLong | src/xelt.c:1320 | strtol saturates at LONG_MAX and LONG_MIN |
| CLib.StrToL | src/xelt.c:1320 | strtol's end pointer lies between the start and the end; it stays at the start when no digits follow the optional spaces and sign |
| CLib.StrToLStopsAtNul | src/xelt.c:1316-1320 | strtol reads nothing past the NUL csiparse places after the buffer |
| CLib.StrToLDigits | src/xelt.c:1320 | on a run of digits strtol returns their value, clamped, and ends after them |
| CLib.StrToLSigned | src/xelt.c:1320 | a leading '-' negates and a leading '+' keeps the value of the digits after it |
| CLib.StrToLEmpty | src/xelt.c:1320-1322 | with no digits the end pointer is the start, so csiparse records 0 |
| CLib.AToI | src/xelt.c:2011 | atoi is strtol cut to a 32-bit int: the result is an int, and 0 when no digits start the string |
| CLib.CStrChr | src/xelt.c:2219 | strchr on a C string finds the first occurrence before the terminator, or the terminator itself for NUL |
| CLib.DecimalValue | src/xelt.c:1935-1938 | the decimal text snprintf produces for n reads back as n under strtol |
| Escape.CsiArg | src/xelt.c:1321-1324 | LONG_MAX and LONG_MIN become -1; every 32-bit value is stored as it is |
| Escape.CsiScan | src/xelt.c:1317-1329 | csiparse never records more than XELT_ESC_ARG_SIZ arguments and stops inside the buffer |
| Escape.ScanFields | src/xelt.c:1317-1329 | the while loop of csiparse computes CsiScan |
| Escape.CsiScanPrefix | src/xelt.c:1317-1325 | arguments already recorded are kept, and the next one is the strtol value of the field at p |
| Escape.CsiEmptyField | src/xelt.c:1320-1325 | an empty field is recorded as 0 |
| Escape.CsiOverflowField | src/xelt.c:1320-1325 | a field whose value overflows long is recorded as -1 |
| Escape.CsiNumberField | src/xelt.c:1320-1325 | a field of digits is recorded as their decimal value |
| Escape.CsiParse | src/xelt.c:1305-1332 | csiparse sets priv exactly when the buffer starts with '?' (or it was set), keeps len and NUL-terminates the buffer |
| Escape.CsiPush | src/xelt.c:2508 | a byte appended to the CSI buffer lands at len and nothing before it changes |
| Escape.CsiEscape.Reset | src/xelt.c:1998-2001 | csireset zeroes the whole record |
| Escape.CsiEscape.Push | src/xelt.c:2508 | the array store is CsiPush on the record |
| Escape.CsiEscape.StoreArgs | src/xelt.c:1317-1329 | the scanned arguments are stored at the front of the argument array and the rest is kept |
| Escape.CsiEscape.Parse | src/xelt.c:1305-1332 | parsing in place on the arrays is CsiParse on the record |
| Escape.NextStop | src/xelt.c:2066-2067 | the inner scan of strparse stops at the first ';' or NUL |
| Escape.NextStopFirst | src/xelt.c:2066-2067 | no ';' or NUL lies before that stop |
| Escape.FindStop | src/xelt.c:2066-2067 | the inner loop computes NextStop |
| Escape.StrScan | src/xelt.c:2064-2073 | strparse records at most XELT_SIZE_STR_ARG arguments and keeps the NUL at len |
| Escape.StrScanBounded | src/xelt.c:2064-2073 | every argument starts within the string |
| Escape.StrScanPrefix | src/xelt.c:2064-2066 | recorded arguments are kept and the next starts at p |
| Escape.CStrUpTo | src/xelt.c:2070 | an argument reads as the bytes up to the NUL that replaced its ';' |
| Escape.StrParse | src/xelt.c:2055-2074 | strparse gives no arguments exactly for an empty string, the first argument starts at the buffer, and at most XELT_SIZE_STR_ARG are recorded |
| Escape.StrAppend | src/xelt.c:2473-2474 | bytes appended to the STR buffer land at len |
| Escape.StrArg | src/xelt.c:2010 | an argument exists exactly for indices below narg |
| Escape.StrEscape.Reset | src/xelt.c:2103-2106 | strreset zeroes the whole record |
| Escape.StrEscape.Append | src/xelt.c:2473-2475 | the memmove into the buffer is StrAppend on the record |
| Escape.StrEscape.Parse | src/xelt.c:2055-2074 | parsing in place is StrParse on the record |
| Escape.StrEscape.Split | src/xelt.c:2064-2073 | the loop that overwrites each ';' with NUL computes StrScan |
| Grid.FillLine | src/xelt.c:1410-1419 | exactly the cells x1..x2 of the row become the glyph |
| Grid.FillRect | src/xelt.c:1407-1421 | exactly the rows y1..y2 are filled in columns x1..x2 |
| Grid.ScrollLinesUp | src/xelt.c:1242-1259 | for k >= 1: rows outside [orig, bot] are untouched, row y takes row y+k, and the last k rows are blank |
| Grid.ScrollLinesDown | src/xelt.c:1222-1239 | for k >= 1: rows outside [orig, bot] are untouched, row y takes row y-k, and the first k rows are blank |
| Grid.SwapUpMoves | src/xelt.c:1249-1254 | the exchange loop of tscrollup moves each row up by k |
| Grid.SwapDownMoves | src/xelt.c:1229-1234 | the exchange loop of tscrolldown moves each row down by k |
| Grid.TrimmedSpaces | src/xelt.c:284-288 | the trim stops after the last non-space |
| Grid.LineLen | src/xelt.c:278-289 | tlinelen is the full width for a wrapped row, otherwise at most the width |
| Grid.LineLenTrailing | src/xelt.c:278-289 | every cell from tlinelen on is a space and the cell before it is not |
| Grid.Vt100 | src/xelt.c:1361-1377 | characters outside A-~ and those with no entry in the graphic table are kept |
| Grid.Span | src/xelt.c:1400-1405 | tclearregion's ordering and clamping gives 0 <= a <= b < n and keeps an ordered in-range pair |
| Grid.MarkRows | src/xelt.c:1140-1149 | exactly the rows a..b are marked dirty in addition to those already dirty |
| Grid.DeleteCellsMoves | src/xelt.c:1425-1439 | tdeletechar keeps the cells before x, pulls the rest left by k and blanks the last k |
| Grid.InsertCellsMoves | src/xelt.c:1442-1456 | tinsertblank keeps the cells before x, pushes the rest right by k and blanks k cells at x |
| Grid.ClearPartner | src/xelt.c:1379-1387 | overwriting the left half of a wide character blanks its dummy; overwriting a dummy blanks its wide left half (only when x > 0); nothing else changes |
| Grid.PartnerAsWritten | src/xelt.c:1379-1387 | the cell tsetchar's code touches besides x: x+1 for a wide cell, x-1 for a dummy |
| Grid.PartnerBeforeRow | src/xelt.c:1384-1386 | a dummy in column 0 makes the code write column -1 |
| Grid.TranFor | src/xelt.c:2213-2224 | only '0' (graphic) and 'B' (USA) select a charset |
| Grid.TranIndexAsWritten | src/xelt.c:2219-2222 | strchr on "0B" also matches the NUL terminator |
| Grid.TranNulOutOfTable | src/xelt.c:2219-2222 | a (char)0 selector, as a rune whose low byte is 0 such as U+0100 gives, makes the code index vcs[2], past the table; the corrected lookup designates nothing |
| Grid.Dropped | src/xelt.c:2587-2595 | tresize drops just enough rows from the top that the cursor row stays on the new screen |
| Grid.ReshapeKeeps | src/xelt.c:2587-2620 | the kept rows are the old ones shifted by the dropped count, in the old and new common width |
| Grid.BlankScreen | src/xelt.c:1201-1208 | every cell of a fresh screen is the given glyph |
| Grid.RefilledCells | src/xelt.c:2639-2645 | after tresize's two clears, cells outside the old common area are blank and the rest kept |
| Grid.ResizedCells | src/xelt.c:2568-2650 | a resized screen keeps each old cell, shifted by the dropped rows, within the common area, and is blank elsewhere |
| Grid.ScrollUpByZero | src/xelt.c:1242-1259 | a scroll by zero rows still blanks rows orig-1 and orig: tscrollup clears rows orig..orig+n-1, which for n = 0 tclearregion puts in order as orig-1..orig |
| Grid.MarkRowsJoin | src/xelt.c:1140-1149 | marking two adjacent ranges is marking their union |
| Grid.FilledScreen | src/xelt.c:1395-1422 | clearing the whole screen gives a blank screen |
| Tabs.NextTab | src/xelt.c:2185-2187 | the next stop to the right, or the width when there is none |
| Tabs.PrevTab | src/xelt.c:2189-2191 | the previous stop to the left, or column 0 |
| Tabs.TabsFwdOne | src/xelt.c:2185-2187 | one forward tab lands on the first stop right of x, or on the width |
| Tabs.TabsBackOne | src/xelt.c:2189-2191 | one backward tab lands on the last stop left of x, or on column 0 |
| Tabs.TabsFwd | src/xelt.c:2185-2187 | n forward tabs stay between x and the width, move right when possible, and land on x, the width or a stop |
| Tabs.TabsBack | src/xelt.c:2189-2191 | n backward tabs stay between 0 and x, move left when possible, and land on x, column 0 or a stop |
| Tabs.TabTarget | src/xelt.c:2180-2194 | the target column is within the row and is x itself, the edge, or a tab stop in the direction of n |
| Tabs.Hop | src/xelt.c:2180-2194 | tputtab's loops compute TabTarget |
| Tabs.InitialTabs | src/xelt.c:1185-1187 | treset sets a stop at every positive multiple of tabspaces |
| Tabs.ResetStops | src/xelt.c:1185-1187 | the loop computes InitialTabs |
| Tabs.LastTab | src/xelt.c:2625-2626 | the backward scan stops at the last stop or at column 0 |
| Tabs.ResizeTabs | src/xelt.c:2605-2629 | shrinking truncates the stops; growing keeps the old ones and adds a stop every tabspaces columns after the last old stop |
| Tabs.ResizeTabsSpacing | src/xelt.c:2621-2629 | on a new column the stops are tabspaces apart, counted from the last old column when it is a stop |
| Tabs.ResizeStops | src/xelt.c:2621-2629 | the loops compute ResizeTabs |
| Tabs.ScanBack | src/xelt.c:2625-2626 | the backward scan computes LastTab |
| Tabs.AddStops | src/xelt.c:2627-2628 | stops are added every tabspaces after j and the old ones kept |
| Select.DelimitersDecoded | src/xelt_macroses.h:13 | ISDELIM holds exactly when utf8strchr finds the character among the word delimiters |
| Select.PixelToCell | src/xelt.c:260-275 | x2col and y2row always give an index in the grid; positions in the border map to 0, past the grid to the last index |
| Select.Selected | src/xelt.c:320-332 | a selected cell needs a selection and lies on a row from nb.y to ne.y; in a rectangular or one-row selection it is at or right of nb.x |
| Select.SelectedRegular | src/xelt.c:320-332 | a regular selection covers exactly the cells between nb and ne in reading order |
| Select.SnapStep | src/xelt.c:350-364 | a word-snap step moves to the next cell in the direction, wrapping to the neighbouring row at the edge |
| Select.WrapColumn | src/xelt.c:354 | (newx + col) % col is col-1 when stepping left off the row and 0 when stepping right off it |
| Select.WordSnap | src/xelt.c:342-380 | word snapping stays in the grid and moves only in the requested direction |
| Select.WordSnapStops | src/xelt.c:342-380 | where a word snap stops, the next step leaves the screen, crosses an unwrapped line end, passes tlinelen, or reaches a cell that is neither a dummy nor of the word's class |
| Select.WordSnapClass | src/xelt.c:342-380 | when no dummy cell lies on its way, every cell a word snap passes over has the start's delimiter class, and is the same delimiter when the start is one |
| Select.LineStart | src/xelt.c:388-394 | the line start has no wrap mark on the row above it |
| Select.LineStartWraps | src/xelt.c:388-394 | every row between the line start and y ends with a wrap mark |
| Select.LineEnd | src/xelt.c:395-401 | the line end row has no wrap mark, unless it is the last row |
| Select.LineEndWraps | src/xelt.c:395-401 | every row from y to the line end, exclusive, ends with a wrap mark |
| Select.SnapEnd | src/xelt.c:335-405 | selsnap stays in the grid, moves only in the requested direction and leaves the point alone with no snap |
| Select.Ends | src/xelt.c:296-310 | nb.y <= ne.y; rectangular and one-row selections order x too; a regular selection gives ordered ends |
| Select.Normalize | src/xelt.c:292-317 | only nb and ne change; both are in the grid, nb.y <= ne.y, regular selections are ordered, and without snap a rectangular selection is its ordered corners |
| Select.CellText | src/xelt.c:573-578 | no text past the last cell |
| Select.CellTextEncodes | src/xelt.c:573-578 | the text of cells i..last is the UTF-8 encoding of the code points of the cells without the dummy mark, in order |
| Select.VisibleScalar | src/xelt.c:573-578 | when the non-dummy cells hold scalar values, so does every code point the copy collects |
| Select.CellTextReadsBack | src/xelt.c:573-578 | when the non-dummy cells hold scalar values, decoding their text gives back their code points in order |
| Select.RowSpanSelected | src/xelt.c:320-332 | on a row from nb.y to ne.y, a column of the grid lies in the span getsel copies exactly when selected() holds for it |
| Select.RowTextEncodes | src/xelt.c:556-590 | an empty row gives a newline; otherwise the trimmed probe lies in the span, points at a non-space or before the start, and only spaces follow it in the row's text, and the row gives the encoding of its non-dummy code points from the start to the probe, then a newline exactly when the selection goes on below or the span passes the text and the probed cell has no wrap mark |
| Select.TrimBack | src/xelt.c:569-571 | the trim stops at the last non-space, or before the start |
| Select.RowText | src/xelt.c:556-590 | an empty row contributes just a newline; its full meaning is stated by RowTextEncodes |
| Select.GetSel | src/xelt.c:543-594 | getsel returns NULL exactly when there is no selection |
| Select.GetSelReadsBeforeRow | src/xelt.c:566-590 | for an all-space row from column 0 the probe is column -1; the model's newline decision then reads no cell |
| Select.Cleared | src/xelt.c:738-745 | selclear sets ob.x = -1 and idle mode and keeps the covered cells |
| Select.RowHitStep | src/xelt.c:1410-1415 | the row scan finds a selected cell exactly when the shorter scan did or the new cell is selected |
| Select.SelHitStep | src/xelt.c:1407-1416 | the rectangle scan finds a selected cell exactly when the shorter scan did or the new row has one |
| Select.ClearedHits | src/xelt.c:1413-1414 | clearing keeps which cells are selected |
| Select.ClearedIf | src/xelt.c:1413-1414 | tclearregion clears the selection only when a cleared cell was selected |
| Select.SelRows | src/xelt.c:742-744 | the rows selclear marks dirty are in the screen |
| Select.SelClamp | src/xelt.c:1272-1286 | the ends are pulled into [top, bot]; a regular selection's pulled start goes to column 0 and its pulled end to the edge; a rectangle's columns stay |
| Select.SelScrolled | src/xelt.c:1262-1289 | after selscroll the selection is in bounds |
| Select.SelScrolledCases | src/xelt.c:1262-1289 | no selection, or one outside [orig, bot], is left alone; otherwise it is cleared exactly when the shift pushes it past the region, and else both ends move by n, clamped to [top, bot], keeping mode, kind and snap |
| Select.SelScrolledKept | src/xelt.c:1272-1287 | a kept selection is the clamped, shifted one normalised |
| Select.SelClampAsWritten | src/xelt.c:1282-1285 | the code's clamp of the end row |
| Select.SelScrollPastLastColumn | src/xelt.c:1282-1285 | a kept regular selection whose start the shift leaves at or above bot and whose end it pushes below bot, by a scroll either way, gets oe = (col, bot) from the code, outside the grid; the model keeps a valid selection |
| Edit.MarkSel | src/xelt.c:742-744 | the rows of a cleared selection are marked dirty |
| Edit.SetDirt | src/xelt.c:1140-1149 | tsetdirt clamps both ends to the screen and marks the rows between |
| Edit.UnselectedDrops | src/xelt.c:738-745 | selclear keeps the rows, clears the selection (only if there is one), keeps which cells are covered, and marks the selection's rows dirty |
| Edit.SelClear | src/xelt.c:738-745 | selclear computes Unselected |
| Edit.ClearRowCells | src/xelt.c:1410-1419 | one row of tclearregion: the cells become the blank, the selection is cleared if one of them was selected |
| Edit.Blanked | src/xelt.c:1395-1422 | tclearregion keeps the page's shape and invariant; which cells it blanks is stated by BlankedCells |
| Edit.BlankedCells | src/xelt.c:1395-1422 | tclearregion blanks exactly the ordered, clamped rectangle, marks its rows dirty, and clears the selection exactly when a cleared cell was selected |
| Edit.BlankedWhole | src/xelt.c:1395-1422 | clearing the whole screen gives a blank screen |
| Edit.ClearedIfTwice | src/xelt.c:1395-1422 | clearing the same region twice changes the selection only once |
| Edit.ClearRegion | src/xelt.c:1395-1422 | tclearregion's nested loops compute Blanked |
| Edit.ResizeClearedParts | src/xelt.c:2639-2645 | tresize's clears refill the area outside the common part and clear the selection if it was hit |
| Edit.ResizeClear | src/xelt.c:2640-2645 | the two clears compute ResizeCleared |
| Edit.KeptFlags | src/xelt.c:2607 | reallocating the dirty flags keeps the old ones in the common rows |
| Edit.ResizeHitOnce | src/xelt.c:2639-2648 | the second pass of tresize's clear loop does not clear a selection again |
| Edit.ResizedSelAsWritten | src/xelt.c:2639-2648 | a selection no clear hits is kept as it is, wherever it lies |
| Edit.ResizeKeepsSelectionOffScreen | src/xelt.c:2639-2648 | a selection on row 1 of a two-row screen survives a shrink to one row with its ends off the screen |
| Edit.ResizedSel | src/xelt.c:2568-2650 | the selection after resizing is always on the screen; an in-bounds one is treated as the code does, any other is cleared |
| Edit.LineLength | src/xelt.c:278-289 | the loop computes tlinelen |
| Edit.SnapWordIn | src/xelt.c:342-380 | the word-snap loop computes WordSnap |
| Edit.SnapLineIn | src/xelt.c:381-402 | the line-snap loops compute SnapEnd |
| Edit.SelSnap | src/xelt.c:335-405 | selsnap computes SnapEnd |
| Edit.SelNormalize | src/xelt.c:292-317 | selnormalize computes Normalize |
| Edit.SelScroll | src/xelt.c:1262-1289 | selscroll computes SelFollowed |
| Edit.SelFollowedMarks | src/xelt.c:1262-1289 | without a selection nothing changes; the only rows newly dirty are those of a selection selscroll cleared |
| Edit.ExchangeUp | src/xelt.c:1249-1254 | the exchange loop of tscrollup computes SwapUp |
| Edit.ExchangeDown | src/xelt.c:1229-1234 | the exchange loop of tscrolldown computes SwapDown |
| Edit.ScrollUpPage | src/xelt.c:1242-1259 | tscrollup keeps the page's shape and invariant; its rows, dirty flags and selection are stated by ScrollUpRows, ScrollUpDirty and ScrollUpSelection |
| Edit.ScrollDownPage | src/xelt.c:1222-1239 | tscrolldown keeps the page's shape and invariant; its rows, dirty flags and selection are stated by ScrollDownRows, ScrollDownDirty and ScrollDownSelection |
| Edit.ScrollUp | src/xelt.c:1242-1259 | tscrollup computes ScrollUpPage |
| Edit.ScrollDown | src/xelt.c:1222-1239 | tscrolldown computes ScrollDownPage |
| Edit.ScrollUpRows | src/xelt.c:1242-1259 | tscrollup clamps n to bot-orig+1 and moves the rows as ScrollLinesUp says |
| Edit.ScrollDownRows | src/xelt.c:1222-1239 | tscrolldown clamps n to bot-orig+1 and moves the rows as ScrollLinesDown says |
| Edit.ScrollUpDirty | src/xelt.c:1242-1259 | every row of [orig, bot] is dirty; outside it, only rows of a cleared selection become dirty |
| Edit.ScrollDownDirty | src/xelt.c:1222-1239 | every row of [orig, bot] is dirty; outside it, only rows of a cleared selection become dirty |
| Edit.ScrollUpSelection | src/xelt.c:1242-1259 | a selection touching the k rows scrolled out is cleared; otherwise it follows the rows up |
| Edit.ScrollUpReachesClamp | src/xelt.c:1242-1289 | a scroll up of a region whose bottom row cuts a regular selection below the cleared rows keeps that selection, and the code's clamp then stores its end as (col, bot) |
| Edit.ScrollDownSelection | src/xelt.c:1222-1239 | a selection touching the k rows scrolled out is cleared; otherwise it follows the rows down |
| Edit.RowsUpDirty | src/xelt.c:1248-1254 | tscrollup's clear marks [orig, bot] dirty and clears the selection or keeps it |
| Edit.RowsDownDirty | src/xelt.c:1228-1234 | tscrolldown's clear marks [orig, bot] dirty and clears the selection or keeps it |
| Edit.RowsDownSelection | src/xelt.c:1228-1231 | tscrolldown's clear of the bottom k rows clears a selection exactly when it covers one of them |
| Edit.CharsDeleted | src/xelt.c:1425-1439 | tdeletechar keeps the page's shape and invariant; the row it makes is stated by DeleteCharEffect |
| Edit.DeleteChar | src/xelt.c:1425-1439 | tdeletechar computes CharsDeleted |
| Edit.DeleteCharEffect | src/xelt.c:1425-1439 | the row is DeleteCells of n clamped to col-x; the row is dirty; the selection is cleared exactly when the blanked tail held a selected cell |
| Edit.BlanksInserted | src/xelt.c:1442-1456 | tinsertblank keeps the page's shape and invariant; the row it makes is stated by InsertBlankEffect |
| Edit.InsertBlank | src/xelt.c:1442-1456 | tinsertblank computes BlanksInserted |
| Edit.InsertBlankEffect | src/xelt.c:1442-1456 | the row is InsertCells of n clamped to col-x; the row is dirty; the selection is cleared exactly when the blanked cells held a selected cell |
| Edit.Written | src/xelt.c:1359-1392 | tsetchar stores the attribute glyph with the (translated) character at (x, y), marks row y dirty and changes no other row |
| Edit.Stored | src/xelt.c:1375-1377 | without the graphic charset the character is stored as it is |
| Edit.SetChar | src/xelt.c:1359-1392 | tsetchar computes Written |
| Edit.AlignStep | src/xelt.c:2232-2234 | one tsetchar of the alignment test keeps the row aligned up to x+1 |
| Edit.Align | src/xelt.c:2227-2237 | after DECALN every cell holds 'E' in the cursor's attributes, apart from wide marks the partner fix-up leaves, every row is dirty and the selection is kept |
| Put.WithLine | src/xelt.c:2535-2563 | replacing one row keeps the other rows, the dirty flags and the selection |
| Put.WrapMarked | src/xelt.c:2537-2538 | a pending wrap adds the wrap mark to exactly the cursor cell |
| Put.ShiftedRight | src/xelt.c:2543-2544 | insert mode moves the cells from x right by the width |
| Put.WideMarked | src/xelt.c:2553-2558 | a width-2 character marks its cell wide and the next one a dummy with code 0, when it exists |
| Put.PlacedCells | src/xelt.c:2550-2558 | the printed cell is the glyph, wide for width 2 with its dummy after it; cells other than x-1..x+1 are kept |
| Put.InsertedCells | src/xelt.c:2543-2558 | in insert mode the cells after the new character are the old ones shifted by the width |
| Sgr.DefColorAsWritten | src/xelt.c:1473-1520 | tdefcolor as written: the index moves by 0, 2 or 4 within the parameters, and a colour means it moved |
| Sgr.DefColor | src/xelt.c:1473-1520 | as above, reading the selector only among the parameters |
| Sgr.DefColorIndexed | src/xelt.c:1496-1508 | 5;n gives n exactly when n is 0-255, a palette colour, and uses two parameters |
| Sgr.DefColorDirect | src/xelt.c:1479-1495 | 2;r;g;b with channels 0-255 gives TRUECOLOR(r, g, b) and uses four parameters |
| Sgr.DefColorShort | src/xelt.c:1478-1516 | too few sub-parameters or an unknown selector give no colour and use none |
| Sgr.DefColorPastArgs | src/xelt.c:1478 | with 38 as the last of 16 parameters the code reads attr[16], past the array |
| Sgr.DefColorAgrees | src/xelt.c:1473-1520 | the corrected tdefcolor gives the same result as the code on every input |
| Sgr.ThenApply | src/xelt.c:1529-1611 | applying two changes in turn is applying their composition |
| Sgr.ApplyTwice | src/xelt.c:1529-1611 | applying a change twice is applying it once |
| Sgr.SgrCodes | src/xelt.c:1529-1604 | 0 clears the seven attributes and restores the default colours; 30-37/90-97 set fg 0-7/8-15 and 40-47/100-107 bg; 38 and 48 set the colour tdefcolor decodes and leave it when there is none |
| Sgr.SgrAttrCodes | src/xelt.c:1543-1604 | 1-4 and 7-9 set bold, faint, italic, underline, reverse, invisible and struck; 22 clears bold and faint, 23-29 clear the matching attribute; 39 and 49 restore the default colours; any other unknown code changes nothing |
| Sgr.SgrChange | src/xelt.c:1529-1611 | one pass of tsetattr's switch consumes the parameter at i and perhaps the colour's sub-parameters, ending before l |
| Sgr.SgrFrom | src/xelt.c:1528-1611 | tsetattr's loop over the parameters never changes the glyph's character |
| Sgr.SetAttr | src/xelt.c:1523-1612 | tsetattr's loop computes SgrFrom |
| Sgr.SgrFromIsChange | src/xelt.c:1523-1612 | a whole SGR sequence acts on any glyph as one change that depends on the parameters only |
| Sgr.SgrIdempotent | src/xelt.c:1523-1612 | sending the same SGR sequence twice is sending it once |
| Sgr.SgrKeepsUntouched | src/xelt.c:1523-1612 | SGR keeps the character, blink and the wrap and wide marks |
| Modes.ModeStep | src/xelt.c:1637-1757 | arguments that name no flag and swap no screen leave the modes alone |
| Modes.ModeOut | src/xelt.c:1642-1647 | one argument notifies at most one effect |
| Modes.StepSetsFlag | src/xelt.c:1637-1757 | the named flag is set exactly when set differs from the flag's inversion; a mouse mode turns the other mouse modes off; no other flag changes |
| Modes.StepSwapsScreen | src/xelt.c:1697-1715 | 47, 1047 and 1049 set the alt-screen flag exactly when setting and change no other flag |
| Modes.LastRequestWins | src/xelt.c:1637-1757 | two requests for the same mode leave what the last alone would |
| Modes.StepOneMouseMode | src/xelt.c:1668-1687 | after one argument at most one mouse mode is on |
| Modes.OneMouseMode | src/xelt.c:1631-1761 | after a whole sequence at most one mouse mode is on |
| Modes.ModesAfter | src/xelt.c:1631-1761 | the terminal flags after tsetmode; the keypad and printer flags, which no argument of tsetmode names, keep their value |
| Modes.ModesOut | src/xelt.c:1631-1761 | the window notifications of tsetmode: at most one per argument, and none for ANSI modes |
| Modes.ReverseRedraw | src/xelt.c:1642-1647 | DECSCNM redraws exactly when it changes the mode |
| Dispatch.DecimalBelow | src/xelt.c:1935-1938 | a number below 10^k has at most k digits |
| Dispatch.PositionReportFits | src/xelt.c:1935-1938 | the cursor position report always fits the 40-byte buffer |
| Dispatch.ZeroCountIsOne | src/xelt.c:1777-1928 | a first argument of 0 acts as 1 (DEFAULT) |
| Dispatch.CsiAction | src/xelt.c:1764-1971 | csihandle's switch maps the final byte and arguments to an action; a sequence is reported unknown exactly for an unknown final byte, TBC other than 0 or 3, private DECSTBM, or a space not followed by a valid DECSCUSR; ED with a mode other than 0-2 clears the selection and is reported unknown by the code, and the model's Erase(true, []) leaves the same state without the report |
| Dispatch.CursorPosition | src/xelt.c:1846-1851 | CUP and HVP move to (col-1, row-1) with 0 meaning 1 |
| Dispatch.CursorStyles | src/xelt.c:1957-1968 | DECSCUSR is accepted exactly for 0-6, gives a style 1-6, and 0 means 1 |
| Dispatch.RegionDefault | src/xelt.c:1941-1950 | DECSTBM without arguments sets the region to the whole screen |
| Dispatch.EraseBelow | src/xelt.c:1858-1865 | ED 0 clears exactly the cells from the cursor on in reading order and drops the selection |
| Dispatch.EraseAbove | src/xelt.c:1866-1870 | for y != 1, ED 1 clears exactly the cells up to the cursor in reading order |
| Dispatch.EraseAboveSecondRow | src/xelt.c:1867 | with the cursor on row 1, ED 1 leaves row 0 alone |
| Dispatch.EraseAboveRects | src/xelt.c:1866-1870 | the corrected ED 1 clears row y up to the cursor as its last rectangle |
| Dispatch.EraseAboveIntended | src/xelt.c:1866-1870 | the corrected ED 1 clears exactly the cells up to the cursor in reading order, for every row |
| Dispatch.EraseAll | src/xelt.c:1871-1873 | ED 2 clears every cell |
| Dispatch.EraseInLine | src/xelt.c:1878-1891 | EL 0, 1 and 2 clear exactly the cursor row from, up to, or across the cursor, and keep the selection state |
| Dispatch.EraseChars | src/xelt.c:1911-1915 | ECH clears exactly n cells from the cursor on its row, 0 meaning 1 |
| Dispatch.PositionReportParses | src/xelt.c:1934-1940 | csiparse reads the position report DSR 6 sends back as row+1 and column+1, ending at the final 'R' |
| Dispatch.StrEffects | src/xelt.c:2004-2052 | the effects of strhandle: only OSC and old-title strings have effects, at most two, and a redraw only after a colour name the window accepted |
| Dispatch.OscTitle | src/xelt.c:2012-2018 | OSC 0, 1 or 2 with a title sets that title |
| Dispatch.OldTitle | src/xelt.c:2038-2040 | ESC k sets the title to the whole string |
| Mouse.ButtonCode | src/xelt.c:451-457 | a release without SGR mode is 3; buttons 1-3 become 0-2 and wheel buttons add 60 |
| Mouse.ModifierBits | src/xelt.c:472-476 | Shift, Mod4 and Control add 4, 8 and 16, and nothing in X10 mode |
| Mouse.IntDecimal | src/xelt.c:479-481 | a non-negative number prints as its decimal digits |
| Mouse.Reported | src/xelt.c:478-489 | at most one report per event |
| Mouse.Step | src/xelt.c:429-490 | mousereport's state update and report: at most one report; a press records the cell and the button code, a release resets oldbutton to 3, motion keeps the state or records a new cell, and it records the cell whenever it reports |
| Mouse.MouseReporter.Report | src/xelt.c:429-490 | mousereport maps the pixels with x2col and y2row and updates ox, oy and oldbutton as Step says, returning the report it writes |
| Mouse.RepeatedMotionSilent | src/xelt.c:438-440 | motion to the cell just reported sends nothing |
| Mouse.ReleaseEndsDrag | src/xelt.c:438-468 | in button-motion mode, motion after a release sends nothing |
| Mouse.DragReportsButton | src/xelt.c:447-461 | motion after a press reports the pressed button plus 32 and the modifiers |
| Mouse.ReleasesUnreported | src/xelt.c:462-468 | releases in X10 mode and wheel releases send nothing and reset oldbutton to 3 |
| Mouse.X10Decodes | src/xelt.c:482-484 | an X10 report is ESC [ M and three bytes that decode back to button, column and row |
| Term.AltIndex | src/xelt.c:1162 | the saved-cursor slot is 1 exactly on the alternate screen |
| Term.Toggled | src/xelt.c:1216 | tswapscreen flips the alt-screen flag |
| Term.ToggledTwice | src/xelt.c:1211-1219 | flipping twice restores the modes |
| Term.MovedTo | src/xelt.c:1342-1356 | tmoveto clamps the cursor into the screen (into the region in origin mode), keeps an in-range target and clears wrap-next |
| Term.BlankOf | src/xelt.c:1418 | the blank is a space without attributes |
| Term.Terminal.constructor | src/xelt.c:1201-1208 | tnew gives a valid terminal in its reset state |
| Term.Terminal.Start | src/xelt.c:1201-1208 | the same for an existing object |
| Term.Terminal.SetDirt | src/xelt.c:1140-1149 | marks the clamped rows dirty and nothing else |
| Term.Terminal.FullDirt | src/xelt.c:1153-1156 | marks every row dirty |
| Term.Terminal.SelClear | src/xelt.c:738-745 | the page becomes Unselected |
| Term.Terminal.ClearRegion | src/xelt.c:1395-1422 | the page becomes Blanked with the cursor's blank |
| Term.Terminal.MoveTo | src/xelt.c:1342-1356 | the cursor is clamped into the screen, or the region in origin mode; wrap-next is cleared |
| Term.Terminal.MoveATo | src/xelt.c:1336-1339 | in origin mode the row counts from top |
| Term.Terminal.SetScroll | src/xelt.c:1615-1628 | tsetscroll gives 0 <= top <= bot < row, ordering and clamping the arguments |
| Term.Terminal.SwapScreen | src/xelt.c:1211-1219 | the two screens exchange, the alt-screen flag flips and every row is dirty |
| Term.Terminal.CursorSave | src/xelt.c:1159-1170 | the cursor is saved in the slot of the current screen |
| Term.Terminal.CursorLoad | src/xelt.c:1159-1170 | the saved cursor is restored through tmoveto |
| Term.Terminal.SelNormalize | src/xelt.c:292-317 | only the selection changes, to its normalised form |
| Term.Terminal.SelScroll | src/xelt.c:1262-1289 | the page becomes SelFollowed |
| Term.Terminal.ScrollUp | src/xelt.c:1242-1259 | the page becomes ScrollUpPage |
| Term.Terminal.ScrollDown | src/xelt.c:1222-1239 | the page becomes ScrollDownPage |
| Term.Fed | src/xelt.c:1292-1302 | tnewline leaves the cursor on the screen with its attributes and without the wrap-next mark; on bot it scrolls the region up by one from top and stays on bot, elsewhere the page is unchanged; the column becomes 0 for a first-column newline and is kept otherwise |
| Term.Terminal.NewLine | src/xelt.c:1292-1302 | at the bottom of the region the region scrolls up by one; otherwise the cursor moves down; the column is 0 or kept |
| Term.Terminal.SetChar | src/xelt.c:1359-1392 | the page becomes Written with the cursor's attributes and the active charset |
| Term.Terminal.DeleteChar | src/xelt.c:1425-1439 | the page becomes CharsDeleted at the cursor |
| Term.Terminal.InsertBlank | src/xelt.c:1442-1456 | the page becomes BlanksInserted at the cursor |
| Term.Terminal.InsertBlankLine | src/xelt.c:1459-1463 | inside the region, scrolls down from the cursor row; outside, nothing changes |
| Term.Terminal.DeleteLine | src/xelt.c:1466-1470 | inside the region, scrolls up from the cursor row; outside, nothing changes |
| Term.Terminal.PutTab | src/xelt.c:2180-2194 | the cursor moves to TabTarget, clamped to the row |
| Term.Terminal.DefTran | src/xelt.c:2213-2224 | '0' and 'B' set the table entry of icharset; any other selector changes nothing |
| Term.Terminal.DecTest | src/xelt.c:2227-2237 | '8' fills the screen with 'E' in the cursor's attributes and marks every row dirty; anything else changes nothing |
| Term.Terminal.ResetScreens | src/xelt.c:1180-1197 | both screens are blank in the default colours, both saved cursors are the reset cursor, and every row is dirty |
| Term.Terminal.Reset | src/xelt.c:1173-1198 | treset restores the default state, marks every row dirty and clears a selection on the screen |
| Term.Terminal.ResizeBuffers | src/xelt.c:2587-2629 | the rows are reshaped around the cursor, the tabs resized and the sizes set |
| Term.Terminal.ResizeLoop | src/xelt.c:2638-2649 | both screens are refilled outside the common area, the modes and cursor are restored and every row is dirty |
| Term.Terminal.Resize | src/xelt.c:2568-2650 | bad sizes change nothing; otherwise the sizes are set, the region reset, the cursor clamped, both screens resized around the cursor row, the tabs extended, the selection kept on screen or cleared, and every row dirty |
| Interp.ErasedCells | src/xelt.c:1856-1915 | erasing a list of rectangles blanks exactly the covered cells |
| Interp.Erase | src/xelt.c:1856-1915 | ED, EL and ECH drop the selection when asked and blank exactly the covered cells |
| Interp.MoveCursor | src/xelt.c:1780-1956 | cursor sequences move, save or restore the cursor as the dispatched action says |
| Interp.EditScreen | src/xelt.c:1776-1919 | ICH, SU, SD, IL, DL and DCH change the page as the grid operations say |
| Interp.Misc | src/xelt.c:1789-1968 | MC, DA, TBC, CHT, CBT, DSR, DECSTBM and DECSCUSR do what the action says and log their effects |
| Interp.SetOrigin | src/xelt.c:1648-1651 | DECOM sets or clears origin mode and homes the cursor |
| Interp.SaveOrLoad | src/xelt.c:1716-1718 | mode 1048 saves the cursor when set and restores it when reset |
| Interp.SwapAltScreen | src/xelt.c:1702-1715 | leaving the alternate screen clears it first; the screens swap when the request differs from the current screen |
| Interp.AltScreenMode | src/xelt.c:1697-1718 | 1049 saves or restores the cursor around the swap; 47 and 1047 only swap |
| Interp.SetModeOne | src/xelt.c:1637-1757 | one mode argument changes the flags as ModeStep says, logs ModeOut, and moves or swaps only for 6, 47, 1047, 1048 and 1049 |
| Interp.SetMode | src/xelt.c:1631-1761 | a whole SM or RM sequence leaves the flags and the log as ModesAfter and ModesOut say; without moving arguments the screens and cursors are unchanged |
| Interp.SetAttr | src/xelt.c:1931-1933 | SGR sets the cursor's attributes to SgrFrom of the parameters |
| Interp.Perform | src/xelt.c:1764-1971 | csihandle carries out the dispatched action on the terminal, as Performed says per kind |
| Interp.CsiHandle | src/xelt.c:1764-1971 | csihandle on the parsed record performs CsiAction of its final bytes and first arguments; unknown sequences change nothing |
| Interp.StrKind | src/xelt.c:2242-2255 | C1 introducers are mapped to their ESC letters; others are kept |
| Interp.StrSequence | src/xelt.c:2240-2259 | tstrsequence resets the STR record with the mapped kind and sets the STR flag |
| Interp.StrHandle | src/xelt.c:2004-2052 | strhandle clears the STR flags, parses the record and logs StrEffects |
| Interp.ControlMotion | src/xelt.c:2265-2279 | HT, BS, CR, LF, VT and FF move the cursor or scroll as tputtab, tmoveto and tnewline do |
| Interp.RingBell | src/xelt.c:2280-2290 | BEL ends a pending STR sequence, or rings the bell |
| Interp.Interrupt | src/xelt.c:2300-2348 | SUB prints '?', SUB and CAN reset the CSI record; NEL, HTS and DECID act |
| Interp.ControlKeep | src/xelt.c:2291-2299 | ESC starts a sequence and resets the CSI record; SO and SI pick charset 1 or 0 |
| Interp.ControlCode | src/xelt.c:2262-2358 | tcontrolcode does what ControlDone says for its byte, and only CAN, SUB, BEL and C1 codes end a STR sequence |
| Interp.EscIntro | src/xelt.c:2368-2391 | '[', '#', the STR introducers and the charset designators only set escape state |
| Interp.EscLine | src/xelt.c:2392-2411 | IND, NEL and RI move the cursor or scroll at the region edge |
| Interp.FullReset | src/xelt.c:2415-2419 | RIS resets the terminal and logs the title and colour reloads |
| Interp.EscOther | src/xelt.c:2381-2439 | the remaining ESC finals act as eschandle says |
| Interp.EscHandle | src/xelt.c:2365-2442 | eschandle returns 0 exactly for the introducers and leaves the state EscDone describes |
| Interp.SelDropped | src/xelt.c:2533-2534 | printing on a selected row clears the selection |
| Interp.Wrapped | src/xelt.c:2537-2541 | a pending wrap marks the cell and starts a new line |
| Interp.Fitted | src/xelt.c:2546-2549 | a character that does not fit starts a new line |
| Interp.PrintedOnCells | src/xelt.c:2533-2565 | the printed cell holds the glyph (wide with a dummy after it for width 2); the cursor advances by the width, or sets wrap-next at the last column |
| Interp.ClearSelOnRow | src/xelt.c:2533-2534 | computes SelDropped |
| Interp.WrapLine | src/xelt.c:2537-2541 | computes Wrapped |
| Interp.Fit | src/xelt.c:2546-2549 | computes Fitted |
| Interp.Write | src/xelt.c:2550-2558 | stores the glyph as Placed says |
| Interp.Advance | src/xelt.c:2560-2564 | computes Advanced |
| Interp.PrintChar | src/xelt.c:2533-2565 | a printable character changes the page and cursor as PrintedOn says |
| Interp.Rendered | src/xelt.c:2453-2457 | a printable character wcwidth rejects is rendered as the first len bytes of EF BF BD 00, len being the length of its own encoding; controls and accepted characters keep their encoding |
| Interp.PrintWidth | src/xelt.c:2454-2457 | a rejected character has width 1; otherwise wcwidth's width |
| Interp.CsiByte | src/xelt.c:2507-2516 | a byte of a CSI sequence is stored, and a final byte or a full buffer parses and handles it |
| Interp.CsiEnd | src/xelt.c:2511-2514 | at the end of a CSI sequence the escape state is cleared and the parsed record handled |
| Interp.EscByte | src/xelt.c:2506-2530 | a byte after ESC is handed to tdeftran, tdectest or eschandle, and the sequence ends unless eschandle asks for more |
| Interp.Prelude | src/xelt.c:2452-2497 | the printer log, and the STR branch: bytes are appended while they fit, silently dropped once the buffer is full, and a terminator ends the STR state |
| Interp.Act | src/xelt.c:2500-2565 | after the STR check, controls go to tcontrolcode, sequence bytes to the escape handlers, and other characters are printed |
| Interp.PutC | src/xelt.c:2445-2565 | tputc: an STR byte changes only the STR record and the log; anything else acts as ActDone says with the rendered width |

## Left out

- Drawing, X11, Xft and fontconfig calls, the window, the event handlers
  (`bpress`, `brelease`, `bmotion`, `getbuttoninfo`, `kpress`) and the
  clipboard protocol are not part of this model. Calls into them become
  entries of the effect log (`SetTitle`, `SetColorName`, `Redraw`,
  `CursorStyle`, `Bell`, `Urgency`, mode notifications).
- `ttywrite`, `tprinter`, `ttynew`, `ttyread` and the rest of the tty
  plumbing are file-descriptor I/O. Their writes become `TtyWrite` and
  `Printer` log entries.
- `wcwidth` is a C library call. Its result is the `width` argument of
  `Interp.PutC`. The colour-name lookup `xsetcolorname` becomes the `ok`
  argument of the STR handlers.
- The logging (`csidump`, `strdump`, `fprintf`) has no effect on the
  terminal state and is left out.
- Memory allocation and freeing in `tnew` and `tresize` are not modelled.
  Screens are values whose shape the invariant fixes.
- The headers `xelt_defines.h`, `xelt_enums.h` and `config.h` are not part
  of this model, so the following are assumptions taken from upstream st:
  - the sizes XELT_ESC_ARG_SIZ 16, XELT_SIZE_ESC_BUF 512,
    XELT_SIZE_STR_BUF 512, XELT_SIZE_STR_ARG 16, XELT_SIZE_UTF 4, and the
    invalid code point U+FFFD (`Types`, `Utf8`);
  - the mouse-mode set XELT_TERMINAL_MOUSE as {MouseBtn, MouseMotion,
    MouseX10, MouseMany} (`Types.MouseModes`);
  - the configuration values tabspaces 8, defaultfg 7, defaultbg 0,
    allowaltscreen true, vtiden "ESC [ ? 6 c", worddelimiters " " and
    borderpx 2 (`Config`).
- `Types.AttrCmp` (ATTRCMP) is defined for completeness. Only the drawing
  code uses it, so no property is stated about it.
- `Term.Terminal.Resize`: implements the corrected selection handling
  (`Edit.ResizedSel`). A selection that no longer lies wholly on the new
  screen is cleared. The code keeps it (`Edit.ResizedSelAsWritten`), so
  rows that stay visible remain highlighted there but not in the model.
- `Dispatch.CsiAction`: keeps ED 1 as written, clearing the rows above the
  cursor only when `cursor.y > 1`. The corrected form is stated apart, in
  `Dispatch.EraseAboveRects` (see Findings).
- `Grid.ClearPartner`, `Term.Terminal.DefTran` and `Select.RowText`
  implement the corrected behaviour of the findings below. The code's
  behaviour there is undefined (an out-of-bounds access), so the model
  cannot follow it.
- `Select.SelScrolled`: clamps the end to column col - 1 where the code
  writes col, so the stored end `oe.x` differs by one. Without snapping or
  with line snapping the normalised ends agree, since selnormalize turns an
  end column of col into col - 1. They differ only
  under word snapping: there the code's selsnap reads `line[bot][col]`,
  which is undefined, and the model snaps from col - 1.
- `Interp.PutC`: the STR buffer overflow is modelled as the code does it.
  Bytes that do not fit are dropped without ending the sequence.
- `Escape.CsiScan`: `strtol` is modelled for a 64-bit `long`. On a 32-bit
  `long` the overflow bound would be 2^31.
- `Mouse.MouseReporter.Report`: the X event is reduced to its kind, button,
  modifier state and pixel position.

## Findings

| source | as written | input that shows it | evidently intended | confidence | as-written member | corrected member |
|---|---|---|---|---|---|---|
| src/xelt.c:1384-1387 | tsetchar clears the wide partner of a dummy cell at `line[y][x-1]` without checking x | DCH (CSI P) with the cursor in column 0 on a wide character pulls its dummy half into column 0; printing a character there makes tsetchar write column -1 | only touch the partner when x > 0 | not executed | Grid.PartnerAsWritten, Grid.PartnerBeforeRow | Grid.ClearPartner |
| src/xelt.c:2212-2223 | tdeftran looks the selector up with strchr in "0B"; strchr finds the terminator for NUL, and the code then reads `vcs[2]` | ESC ( followed by U+0100, whose low byte is 0 (a NUL byte itself is a control and goes to tcontrolcode instead) | only '0' and 'B' select a charset | not executed | Grid.TranIndexAsWritten, Grid.TranNulOutOfTable | Grid.TranFor, Term.Terminal.DefTran |
| src/xelt.c:1282-1285 | selscroll sets `oe.x = terminal.col` when it clamps the end of a regular selection to bot | a regular, word-snapped selection that starts below the rows tscrollup clears and ends below bot of a DECSTBM region, then a scroll up of that region: 10 rows, CSI 1;5 r, a selection from (1,3) to (1,8), then LF with the cursor on row 4 | the last column, col - 1 | not executed | Select.SelClampAsWritten, Select.SelScrollPastLastColumn, Edit.ScrollUpReachesClamp | Select.SelScrolled, Select.SelClamp |
| src/xelt.c:569-589 | getsel trims trailing spaces by moving `last` left of `gp`; for a row of spaces starting at column 0 it then reads `last->mode`, which is `line[y][-1]` | a selection over a row that is all spaces before a wrapped row end, with tlinelen > 0 | decide the newline without reading before the row | not executed | Select.GetSelReadsBeforeRow | Select.RowText, Select.GetSel |
| src/xelt.c:2639-2648 | tresize clears the selection only when one of its two clears hits a selected cell; a selection below the new last row is kept with its ends off the screen | a one-column screen of two rows, a selection on row 1, resized to one row | a selection that does not fit is cleared | not executed | Edit.ResizedSelAsWritten, Edit.ResizeKeepsSelectionOffScreen | Edit.ResizedSel, Term.Terminal.Resize |
| src/xelt.c:1866-1870 | ED 1 clears the rows above the cursor only when `cursor.y > 1`, so with the cursor on row 1 row 0 is not erased | cursor on row 1, then CSI 1 J | clear the rows above whenever y > 0 | not executed | Dispatch.EraseAboveSecondRow | Dispatch.EraseAboveRects, Dispatch.EraseAboveIntended |
| src/xelt.c:1478 | tdefcolor reads the selector `attr[*npar + 1]` before checking it against l | an SGR sequence of 16 parameters whose last is 38 or 48 | read the selector only when it is one of the parameters | not executed | Sgr.DefColorAsWritten, Sgr.DefColorPastArgs | Sgr.DefColor, Sgr.DefColorAgrees |
