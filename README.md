# Terminal cheat-sheet viewers: the viewer engine

nvimtutor and zshtutor are two small full-screen terminal programs. Each shows a menu of
tutorial sections. Opening a section turns its tagged lines (`T:` title, `G:` group header,
`R:key|desc` row, `N:` note, `B:` blank, anything else raw) into a list of display lines.
The user scrolls that list with vi-like keys and leaves it to return to the menu. Both
programs contain the same engine with small differences; this project models that engine and
proves what it does.

The modules follow the programs' structure:

- `Bytes`, `Ansi`: byte strings and the operations the C code applies to them.
  - snprintf/strncpy truncation (`Take`), `%-Ns` padding, `strchr`, `%d`.
  - The terminal control strings and decorations, kept as constant bytes.
- `Markup`: the per-tag formatting of `flat_build` and the display list of a whole section
  (`Compile`). One `Dialect` value carries the two programs' differences: the key width (18 or
  22) and the snprintf buffer (512 or 320 bytes).
- `FrameBuffer`: nvimtutor's growable frame buffer `fbuf`, as a class. It also holds a trace
  semantics (`Replay`) for a sequence of buffer calls that may include `free`.
- `NvimFlat`: nvimtutor's growable array of display lines, as a class.
  - A failed `realloc` is a nondeterministic choice, and it drops the appended line or text.
  - Both classes keep a ghost counter `failures` of the `realloc` calls that failed.
  - `Build` leaves a subsequence of the compiled section, one line short for each failure, and
    the whole compiled section exactly when none failed.
- `ZshFlat`: zshtutor's fixed array of 900 entries of 320 bytes, as a class over an `array`.
  Entries are cut to 319 bytes, and lines past the 900th are ignored.
- `Input`: `term_rows` and both `read_key` variants.
  - Standard input is a finite list of events: bytes and 100 ms silences for nvimtutor, plain
    bytes for zshtutor. Its end is end of file.
  - `NvimKeys`/`ZshKeys` give the keys that successive calls return.
- `Viewport`: the clamp block and the key reactions of `view_section`.
  - `SectionView` is a class with `Normalize` and `Step` methods.
  - `Window` gives the rows a frame draws.
  - `RunVisit` runs a whole visit over a key list.
- `Menu`: the main loop's key reactions (stay, open section *i*, quit). `MenuCursor` is a class
  with a `Step` method, and `MenuRun` runs a whole session.
- `Screen`: the bytes the programs write.
  - one section frame (`SectionFrame`) and one menu frame (`MenuFrame`);
  - the output of a visit (`VisitOutput`) and of a whole session (`SessionOutput`).
- `NvimApp`, `ZshApp`: the programs' own loops as methods (`view_section`, `print_menu`,
  `main`). Each is proved to write exactly `SessionOutput` of the keys it reads.
  - `VisitRound` is one pass of `view_section`'s loop and `MenuRound` one pass of `main`'s loop (draw, read, `React`). `OpenSection` is the `view_section` call of an opened entry, with its `term_rows` query. They are the loop bodies behind `VisitLoop` and `MenuLoop`.
  - nvimtutor writes through the frame buffer and `fb_appendf`'s 1023-byte cap. Its methods
    promise their output for the runs in which the failure counters did not move.
  - zshtutor writes through printf, with no cap.

The programs' fixed texts are parameters of type `Screen.Texts`: the banner, the menu labels and
the two hint lines. The sections' tagged lines are parameters too, and so is the input.
`view_section` calls `term_rows` on every visit, so the terminal may have been resized between
visits. The model takes a function `sizes` as a parameter: `sizes(n)` is what the size query of
the n-th visit gets. The loops count the visits, and `SessionOutput` numbers them the same way.

The model follows the code in two places a reader might not expect:

- End of input. In both programs `read_key` returns -1 at end of input, and -1 is an unbound
  key in the menu and in a section, so neither loop ever ends (`Menu.MenuUnboundKeys` for the
  menu; see also "## Left out"). The model's loops stop when the key list runs out, and they
  report that the session did not quit.
- Exit and quit keys. In the menu only `q` and `x` quit; `h` and ESC, which leave a section,
  merely disarm `gg` there (`Menu.MenuQuitKeys`, `Menu.MenuUnboundKeys`).

## Model

| member | source | states |
|---|---|---|
| Bytes.Take | nvimtutor/nvimtutor.c:986-988 | what a bounded copy keeps: the longest prefix of at most n bytes, the whole string when it fits |
| Bytes.PadRightNeverTruncates | nvimtutor/nvimtutor.c:991-992 | `%-Ns` pads with spaces up to N bytes, keeps the string as its prefix and never cuts a longer one |
| Bytes.FindFirst | nvimtutor/nvimtutor.c:979 | strchr finds the first occurrence: absent exactly when the byte does not occur, and none occurs before the index found |
| Bytes.DecimalRoundTrip | nvimtutor/nvimtutor.c:1055-1058 | the `%d` digits of a counter denote that number |
| Ansi.Lengths | nvimtutor/nvimtutor.c:13-28 | the byte lengths of the colour codes and the 179-byte separator, which decide where snprintf cuts |
| Markup.SplitRow | nvimtutor/nvimtutor.c:977-990 | a row's key is at most 63 bytes and its description at most 255 |
| Markup.SplitRowAtFirstPipe | nvimtutor/nvimtutor.c:979-986 | the split is at the first `|`; later `|` belong to the description; within the caps key, `|` and description give back the payload |
| Markup.SplitRowWithoutPipe | nvimtutor/nvimtutor.c:987-990 | without a `|` the key is the whole payload cut to 63 bytes and the description is empty |
| Markup.RowBodyLayout | nvimtutor/nvimtutor.c:991-992 | the whole key starts at byte 17, is padded with spaces to the key width, and is followed by the description colour and the description |
| Markup.NvimRowNeverCut | nvimtutor/nvimtutor.c:991-993 | nvimtutor's 512-byte buffer never cuts a row line |
| Markup.ZshLongRowIsCut | zshtutor/zshtutor.c:540-542 | zshtutor's 320-byte buffer cuts a row with a 63-byte key and a 255-byte description from 356 to 319 bytes |
| Markup.Expand | nvimtutor/nvimtutor.c:959-1009 | a tagged line yields 3 display lines for `T`, 2 for `G` and 1 for any other tag |
| Markup.UnknownTagIsVerbatim | nvimtutor/nvimtutor.c:1006-1008 | an unknown tag never fails: one line, two spaces and the whole raw line, tag included |
| Markup.CompileSnoc | nvimtutor/nvimtutor.c:954-1010 | the display list of a section is built line by line, each line's display lines appended in order |
| Markup.CompileCount | nvimtutor/nvimtutor.c:950-1011 | a section of n lines compiles to n + 2·(titles) + (group headers) display lines |
| Markup.CompileLinesFit | zshtutor/zshtutor.c:508-557 | every compiled display line fits in the snprintf buffer |
| FrameBuffer.Grow | nvimtutor/nvimtutor.c:46-48 | doubling ends at a capacity covering the need, below twice the need, unchanged when it already covers it |
| FrameBuffer.NewCapCovers | nvimtutor/nvimtutor.c:45-54 | the new capacity covers contents plus NUL; it is 8192 for a first small append and the doubled old one when doubling suffices |
| FrameBuffer.Replay | nvimtutor/nvimtutor.c:41-73 | a sequence of reset/append/flush/free calls reaches freed memory exactly when, after the first free, there is an append or a second free, or a flush while the length still counts bytes; a reset or an empty flush after a free is harmless and writes nothing; appends and flushes ending in a flush write the pending bytes and then every appended byte, in order |
| FrameBuffer.Buffer.constructor | nvimtutor/nvimtutor.c:31-33 | the buffer starts empty with no allocation |
| FrameBuffer.Buffer.Release | nvimtutor/nvimtutor.c:1205 | `free(fbuf)` leaves length and capacity as they were, and the buffer must not be used again |
| FrameBuffer.Buffer.Reset | nvimtutor/nvimtutor.c:41 | the contents become empty and the capacity is kept |
| FrameBuffer.Buffer.Append | nvimtutor/nvimtutor.c:43-58 | on success contents are old contents followed by s, with the doubled capacity; on realloc failure nothing changes but the failure count, which goes up by one |
| FrameBuffer.Buffer.Appendf | nvimtutor/nvimtutor.c:60-67 | appends the formatted text cut to 1023 bytes, or, on realloc failure, nothing, and counts the failure |
| FrameBuffer.Buffer.Flush | nvimtutor/nvimtutor.c:69-73 | writes exactly the contents and empties the buffer |
| NvimFlat.Store.constructor | nvimtutor/nvimtutor.c:925-927 | the list starts empty with no allocation |
| NvimFlat.Store.Free | nvimtutor/nvimtutor.c:929-935 | the lines are released and the capacity is kept |
| NvimFlat.Store.Add | nvimtutor/nvimtutor.c:937-948 | on success the line is appended and a full array doubles from 128; on realloc failure nothing changes but the failure count, which goes up by one |
| NvimFlat.Store.AddTagged | nvimtutor/nvimtutor.c:959-1009 | one turn of the switch extends the target by the line's expansion; the list stays a subsequence of the target, one line short for each failed append, and equal to it when none failed |
| NvimFlat.Store.Build | nvimtutor/nvimtutor.c:950-1011 | whatever the list held before, the result is a subsequence of the compiled section; it has one line fewer for each failed realloc, and it is the compiled section exactly when none failed |
| ZshFlat.Stored | zshtutor/zshtutor.c:492-506 | the stored list holds at most 900 lines, each the input cut to 319 bytes |
| ZshFlat.StoredSnoc | zshtutor/zshtutor.c:502-506 | adding to a full list changes nothing; otherwise the cut line is appended |
| ZshFlat.StoredCompile | zshtutor/zshtutor.c:508-557 | compiled lines are stored whole, and only the 900-line bound can drop any |
| ZshFlat.Store.constructor | zshtutor/zshtutor.c:499-500 | the array holds 900 entries and the count starts at 0 |
| ZshFlat.Store.Add | zshtutor/zshtutor.c:502-506 | the count never exceeds 900; past it the add is ignored; otherwise the line cut to 319 bytes is appended |
| ZshFlat.Store.AddTagged | zshtutor/zshtutor.c:515-555 | one turn of the switch stores the line's expansion |
| ZshFlat.Store.Build | zshtutor/zshtutor.c:508-557 | whatever the array held before, it holds the stored form of the compiled section |
| Input.TermRows | nvimtutor/nvimtutor.c:152-157 | the reported height when the query succeeds with more than 4 rows, 24 otherwise |
| Input.BlockingRead | nvimtutor/nvimtutor.c:115-117 | the blocking read fails exactly when no byte arrives before the input ends |
| Input.TimedRead | nvimtutor/nvimtutor.c:125-134 | a 100 ms wait then a read: the next byte if it is there, none on silence or end of input |
| Input.NvimReadKey | nvimtutor/nvimtutor.c:114-150 | -1 exactly when no byte arrives; otherwise a key in 0..255 and less input left |
| Input.NvimPlainByte | nvimtutor/nvimtutor.c:115-119 | a byte other than ESC is returned unchanged, after any silence |
| Input.NvimEscapeAlone | nvimtutor/nvimtutor.c:125-130 | ESC and then a timeout or end of input at the first wait gives 27 |
| Input.NvimEscapeThenSlowByte | nvimtutor/nvimtutor.c:132-141 | ESC and one byte, then a timeout or end of input at the second wait, gives 27 |
| Input.NvimEscapeSequence | nvimtutor/nvimtutor.c:143-149 | ESC followed in time by two bytes gives 0 and consumes all three |
| Input.NvimKeysAdvance | nvimtutor/nvimtutor.c:1061 | each read_key call moves one place along the key list of the input |
| Input.ZshReadKey | zshtutor/zshtutor.c:42-52 | -1 exactly at end of input; otherwise a key in 0..255 and less input left |
| Input.ZshReadKeyCases | zshtutor/zshtutor.c:42-52 | a non-ESC byte is returned; ESC then end of file at either follow-up read gives 27; ESC and two bytes gives 0 and consumes 3 |
| Input.ZshKeysAdvance | zshtutor/zshtutor.c:598 | each read_key call moves one place along the key list of the input |
| Viewport.Clamped | nvimtutor/nvimtutor.c:1031-1040 | for total > 0 and visible ≥ 1, the clamp gives 0 ≤ cursor < total and offset ≤ cursor < offset + visible, offset ≥ 0, and keeps the `gg` flag |
| Viewport.ClampedMovesLeast | zshtutor/zshtutor.c:576-581 | the clamp moves the cursor only when it is outside the list, and moves the window by the least amount that shows it |
| Viewport.ClampedIdempotent | nvimtutor/nvimtutor.c:1031-1040 | clamping a clamped state changes nothing |
| Viewport.KeyReaction | nvimtutor/nvimtutor.c:1063-1088 | a key leaves the section exactly when it is x, h, q or ESC |
| Viewport.KeyReactionKeepsCursor | zshtutor/zshtutor.c:600-619 | no key takes the cursor out of the list; the `gg` flag is set exactly after an unarmed `g` |
| Viewport.MovementKeys | nvimtutor/nvimtutor.c:1063-1083 | j and k step by one within [0, total-1]; G goes to total-1; `%` goes to total-1 below total/2 and to 0 otherwise |
| Viewport.GoToTopNeedsTwoPresses | nvimtutor/nvimtutor.c:1071-1077 | a second `g` in a row goes to row 0 with offset 0; any other non-moving key in between leaves the cursor and disarms |
| Viewport.GoToBottomExample | nvimtutor/nvimtutor.c:1078-1080 | 50 rows with 21 visible: G then the clamp give cursor 49 and offset 29 |
| Viewport.ToggleEndsExample | zshtutor/zshtutor.c:612-614 | `%` on 10 rows takes 0 to 9, 9 to 0 and 4 to 9 |
| Viewport.ExitPrefix | nvimtutor/nvimtutor.c:1084-1085 | a visit reads no more keys than there are |
| Viewport.RunVisit | nvimtutor/nvimtutor.c:1030-1089 | a visit that is not left has read all the keys, and the offset is never negative |
| Viewport.RunVisitStep | zshtutor/zshtutor.c:575-620 | an exit key ends a visit after one key; any other key continues it from the key's reaction |
| Viewport.RunVisitReadsToExit | nvimtutor/nvimtutor.c:1030-1089 | a visit reads exactly up to the first exit key, is left exactly when there is one, and each frame it draws satisfies the window invariant |
| Viewport.WindowSize | nvimtutor/nvimtutor.c:1045 | the drawing loop draws at most `visible` rows and none past the list; none exactly when visible ≤ 0 or offset = total |
| Viewport.WindowLoopCondition | zshtutor/zshtutor.c:585 | the loop condition `i < offset + visible && i < total` holds exactly for the WindowSize indices |
| Viewport.Window | nvimtutor/nvimtutor.c:1045-1050 | the drawn rows are the consecutive entries from offset, each highlighted exactly when it is the cursor's |
| Viewport.WindowShowsCursor | nvimtutor/nvimtutor.c:1031-1050 | after the clamp, min(visible, total - offset) rows are drawn, all in the list, and exactly one, the cursor's, is highlighted |
| Viewport.SectionView.constructor | nvimtutor/nvimtutor.c:1020-1025 | a visit starts at cursor 0, offset 0, disarmed |
| Viewport.SectionView.Normalize | zshtutor/zshtutor.c:576-581 | the new state is the clamp of the old one and satisfies the window invariant when total > 0 and visible ≥ 1 |
| Viewport.SectionView.Step | nvimtutor/nvimtutor.c:1063-1088 | leaves exactly on an exit key, with the state unchanged; otherwise the state becomes the key's reaction |
| Menu.MenuKey | nvimtutor/nvimtutor.c:1169-1200 | the cursor stays in the menu; opening resets `gg` and puts the cursor on the opened entry; quitting keeps the state; the `gg` flag is set exactly after an unarmed `g` |
| Menu.MenuMovement | nvimtutor/nvimtutor.c:1169-1188 | j and k stay within [0, n-1]; G goes to n-1; `%` compares cur with 0 |
| Menu.MenuQuitKeys | zshtutor/zshtutor.c:714-717 | q and x, and only they, quit |
| Menu.MenuOpenKeys | nvimtutor/nvimtutor.c:1189-1191 | l, CR and LF open the entry under the cursor and keep it |
| Menu.MenuDigitKeys | zshtutor/zshtutor.c:710-713 | a key from '1' to '0'+MENU_N selects and opens entry key-'1', which is in the menu |
| Menu.NvimDigitsPastNine | nvimtutor/nvimtutor.c:1192-1195 | with 13 entries ':', ';', '<' and '=' open entries 10 to 13; with 9 entries ':' is unbound |
| Menu.MenuUnboundKeys | nvimtutor/nvimtutor.c:1198-1199 | ESC, an escape sequence (0) and a failed read (-1) only disarm `gg` |
| Menu.MenuGoToTop | zshtutor/zshtutor.c:698-700 | two `g` in a row go to the first entry; another key in between disarms |
| Menu.MenuRunInRange | nvimtutor/nvimtutor.c:1165-1201 | every section a session opens is a menu entry, and the cursor stays on an entry |
| Menu.SectionReturnKeepsCursor | nvimtutor/nvimtutor.c:1189-1191 | after a visit the menu continues from the same entry with `gg` disarmed |
| Menu.MenuQuitEnds | zshtutor/zshtutor.c:714-717 | a quit key ends the session at once |
| Menu.FiveDownExample | zshtutor/zshtutor.c:692-694 | five j in a five-entry menu stop on the last entry |
| Menu.DigitOpensExample | zshtutor/zshtutor.c:710-713 | '3' then q in the section opens the third entry and returns to it |
| Menu.MenuCursor.constructor | nvimtutor/nvimtutor.c:1162-1163 | the menu starts on the first entry, disarmed |
| Menu.MenuCursor.Step | zshtutor/zshtutor.c:692-720 | outcome and new state are those of MenuKey |
| Screen.Fmt | nvimtutor/nvimtutor.c:60-67 | a formatted piece is a prefix of the piece and never longer than the cap; it is exactly the cap long when cut, and the whole piece exactly when there is no cap or the piece fits |
| Screen.DecimalInt | zshtutor/zshtutor.c:593-596 | `%d` starts with a minus sign exactly when the number is negative; the rest is one or more decimal digits whose value is the number's magnitude |
| Screen.RowFitsFormatBuffer | nvimtutor/nvimtutor.c:1046-1049 | a list line of at most 511 bytes fits the 1023-byte format buffer, even highlighted |
| Screen.RenderNeverCut | nvimtutor/nvimtutor.c:1045-1050 | when every list line fits, the cap never cuts a drawn row |
| Screen.VisitOutputStep | nvimtutor/nvimtutor.c:1030-1093 | a visit's output is the clamped frame, then CUR_SHOW after an exit key or, for any other key, the rest of the visit |
| Screen.VisitOutputEnds | zshtutor/zshtutor.c:575-622 | a visit's output ends with the frame of its last state, followed by CUR_SHOW exactly when it is left |
| Screen.MenuEntriesStep | zshtutor/zshtutor.c:669-674 | each pass of the entry loop appends entry i's row, selected exactly when i is cur, to the rows of the entries before it; every entry names a label |
| Screen.MenuEntries | nvimtutor/nvimtutor.c:1142-1147 | print_menu lists every entry in order and selects only entry cur |
| Screen.SessionOutputOpen | nvimtutor/nvimtutor.c:1189-1195 | an opening key is followed by the visit of the opened entry, sized by the visit's own query, and, if that visit was left, by the rest of the session from that entry after the exit key |
| Screen.SessionOutputAdvance | nvimtutor/nvimtutor.c:1165-1201 | after a menu frame comes the farewell on quit, the rest of the session on a stay, and on open a visit, then the rest of the session if the visit was left |
| Screen.OpenRunFacts | zshtutor/zshtutor.c:707-713 | an opened visit reads keys up to its exit key, after which the session continues from the opened entry; without an exit key the keys end in it and the session does not quit |
| NvimApp.Pages | nvimtutor/nvimtutor.c:1117-1121 | each menu entry's display list is its section compiled |
| NvimApp.AppendRows | nvimtutor/nvimtutor.c:1045-1050 | the failure count never goes down; when no realloc fails, the window's rows are appended in order, each cut to 1023 bytes and in the cursor colours when it is the cursor's |
| NvimApp.DrawFrame | nvimtutor/nvimtutor.c:1042-1059 | when no realloc fails, the flushed bytes are exactly the section frame of the state |
| NvimApp.VisitLoop | nvimtutor/nvimtutor.c:1030-1093 | reads the keys of the visit and leaves when RunVisit leaves, whatever fails; when no realloc fails it writes VisitOutput |
| NvimApp.ViewSection | nvimtutor/nvimtutor.c:1017-1093 | builds the display list, with the guarantees of Build; when no realloc fails, writes CUR_HIDE and the visit's output over the compiled section, with the rows of this visit's size query |
| NvimApp.AppendMenuRows | nvimtutor/nvimtutor.c:1142-1147 | when no realloc fails, appends all 13 entries in order, entry cur selected |
| NvimApp.PrintMenu | nvimtutor/nvimtutor.c:1123-1154 | when no realloc fails, the flushed bytes are exactly the menu frame |
| NvimApp.React | nvimtutor/nvimtutor.c:1168-1200 | the reaction to one menu key, whatever fails: when it stops it reports whether the session quits; otherwise the remaining key list decides that, and the rest of the input yields exactly those keys; when no realloc fails, the bytes so far, the farewell after a quit, and the rest of the session make up the whole session |
| NvimApp.MenuLoop | nvimtutor/nvimtutor.c:1165-1201 | quits exactly when MenuRun does, whatever fails; when no realloc fails it writes SessionOutput of the keys read, each visit with its own size query |
| NvimApp.SignOff | nvimtutor/nvimtutor.c:1203-1210 | the corrected epilogue: the list is emptied as `flat_free` does (the `free(flat)` of the array itself is not modelled, since it changes no output), the buffer is released, and when no realloc fails the bytes written are those Replay gives for the farewell's calls followed by `free`, namely the farewell |
| NvimApp.FarewellCalls | nvimtutor/nvimtutor.c:1207-1210 | the farewell's buffer calls contain no free |
| NvimApp.FarewellAfterFree | nvimtutor/nvimtutor.c:1203-1210 | as written, the `fb_reset` after `free(fbuf)` is still harmless, but the `fb_append` at 1208 reaches freed memory, so the farewell's output is undefined whatever the buffer held |
| NvimApp.FarewellBeforeFree | nvimtutor/nvimtutor.c:1203-1210 | with the free after the last flush, the calls are defined and write exactly the farewell |
| NvimApp.Run | nvimtutor/nvimtutor.c:1156-1212 | main quits exactly when the key stream quits the menu and, with the corrected epilogue of SignOff (see ## Findings), releases the buffer after the farewell's flush; when no realloc fails it writes CUR_HIDE and SessionOutput of the compiled sections |
| ZshApp.Pages | zshtutor/zshtutor.c:643-653 | each entry's display list is its section compiled and stored in the 900×320 array |
| ZshApp.PrintRows | zshtutor/zshtutor.c:585-590 | the window's rows, in order |
| ZshApp.PrintFrame | zshtutor/zshtutor.c:583-596 | exactly the section frame of the state |
| ZshApp.VisitLoop | zshtutor/zshtutor.c:575-620 | reads the keys of the visit, leaves when RunVisit leaves, and prints VisitOutput |
| ZshApp.ViewSection | zshtutor/zshtutor.c:563-623 | stores the compiled section, then prints CUR_HIDE and the visit's output over it, with the rows of this visit's size query |
| ZshApp.PrintMenuRows | zshtutor/zshtutor.c:669-674 | all 9 entries in order, entry cur selected |
| ZshApp.PrintMenu | zshtutor/zshtutor.c:655-678 | exactly the menu frame |
| ZshApp.React | zshtutor/zshtutor.c:692-720 | the reaction to one menu key: when it stops it reports whether the session quits; otherwise the remaining key list decides that, and the rest of the input yields exactly those keys; the bytes so far, the farewell after a quit, and the rest of the session make up the whole session |
| ZshApp.MenuLoop | zshtutor/zshtutor.c:688-721 | quits exactly when MenuRun does and prints SessionOutput, farewell included, each visit with its own size query |
| ZshApp.Run | zshtutor/zshtutor.c:680-722 | main quits exactly when the key stream quits the menu and prints CUR_HIDE and SessionOutput of the stored sections |

## Left out

- Raw terminal mode, `atexit`, the signal handlers and `term_restore` are left out. They are operating-system plumbing with no effect on the viewer's logic.
- nvimtutor's alternate-screen switch (`ALT_ON`/`ALT_OFF`) is left out. Only `term_raw` and `term_restore` write it.
- The real `select` and `read` calls are left out. Input is a finite list of events, and a 100 ms silence is one event.
- `write` and `printf` are modelled as the bytes they produce. nvimtutor's writes are what `fb_flush` returns; zshtutor's are the concatenated printf output.
- The static tables (`sec_*`, `menu_labels`, `menu_sections`), the ASCII-art banners and the hint texts are left out. They are data; the model takes them as parameters (`Screen.Texts` and the sections).
- Display width of UTF-8 and Cyrillic text is not modelled. Padding and truncation count bytes, as the code does.
- The endless loop on a failed read is not modelled. At end of input `read_key` keeps returning -1 and neither loop ever quits; the model's loops stop when the key list is exhausted.
- `strdup` failure in `flat_add` is not modelled; the line is taken as stored.
- Sizes are unbounded integers, so `size_t` and `int` overflow are not modelled. The list and buffer sizes involved stay far below the limits.
- Strings are NUL-free byte sequences. An embedded NUL would end a C string early, and the model does not represent that.
- Empty sections (`total == 0`) are excluded by the invariant lemmas' requires, not by the methods. Tag lines shorter than two bytes for `T`, `G`, `R` and `N` are excluded by `Markup.WellFormed`, because the code then reads past the string.
- FrameBuffer.Replay: does not model realloc failure, because it describes only the order of buffer calls against `free`. `Buffer.Append` and `Buffer.Appendf` count those failures instead.
- NvimApp.DrawFrame, NvimApp.PrintMenu, NvimApp.VisitLoop, NvimApp.MenuLoop, NvimApp.Run: after a failed `realloc` the dropped text is missing from the frame. Their output contracts cover only the runs in which the failure count stayed the same; for other runs they promise the key and quit behaviour but not the bytes.

## Findings

| source | as written | input that shows it | evidently intended | confidence | as-written member | corrected member |
|---|---|---|---|---|---|---|
| nvimtutor/nvimtutor.c:1203-1210 | `free(fbuf)` runs before `fb_reset`, `fb_append`, `fb_appendf` and `fb_flush` write the farewell. `fbuf_cap` keeps its old value, so `fb_append` copies into freed memory without reallocating. | any session that ends with `q`: the menu has already allocated `fbuf` | write and flush the farewell, then free the buffer | not executed | NvimApp.FarewellAfterFree | NvimApp.FarewellBeforeFree |
